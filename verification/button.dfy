/**
 * The call-to-action button: CMS style and colour labels become CSS classes,
 * the CMS link URI becomes a site path or an external address, and the
 * rendered element is an external anchor or an internal link, with or
 * without an analytics click handler.
 */
module Button {
  import opened Wrappers
  import Strings

  // ---------------------------------------------------------------------------
  // Style and colour classes
  // ---------------------------------------------------------------------------

  /** The style labels the CMS offers. */
  const StyleLabels: set<string> :=
    {"Primary", "Primary (Outline)", "Secondary", "Secondary (Outline)", "Info", "Info (Outline)"}

  /** The Bootstrap classes a button can carry. */
  const StyleClasses: set<string> :=
    {"btn-primary", "btn-outline-primary", "btn-secondary", "btn-outline-secondary", "btn-info", "btn-outline-info"}

  /** `ButtonStyle(styleOfButton)`: the class of a style label; any other label is primary. */
  function ButtonStyle(styleOfButton: string): (r: string)
    ensures r in StyleClasses
    ensures styleOfButton !in StyleLabels ==> r == "btn-primary"
  {
    if styleOfButton == "Primary" then "btn-primary"
    else if styleOfButton == "Primary (Outline)" then "btn-outline-primary"
    else if styleOfButton == "Secondary" then "btn-secondary"
    else if styleOfButton == "Secondary (Outline)" then "btn-outline-secondary"
    else if styleOfButton == "Info" then "btn-info"
    else if styleOfButton == "Info (Outline)" then "btn-outline-info"
    else "btn-primary"
  }

  /** Distinct labels get distinct classes: the six styles stay apart. */
  lemma ButtonStyleInjective(a: string, b: string)
    requires a in StyleLabels && b in StyleLabels
    ensures ButtonStyle(a) == ButtonStyle(b) <==> a == b
  {
  }

  /** Every class is reached, so no style is lost to the default. */
  lemma ButtonStyleOnto(c: string)
    requires c in StyleClasses
    ensures exists l :: l in StyleLabels && ButtonStyle(l) == c
  {
    if c == "btn-primary" { assert ButtonStyle("Primary") == c; }
    else if c == "btn-outline-primary" { assert ButtonStyle("Primary (Outline)") == c; }
    else if c == "btn-secondary" { assert ButtonStyle("Secondary") == c; }
    else if c == "btn-outline-secondary" { assert ButtonStyle("Secondary (Outline)") == c; }
    else if c == "btn-info" { assert ButtonStyle("Info") == c; }
    else { assert ButtonStyle("Info (Outline)") == c; }
  }

  /** The colour word a style label starts with, and the class suffix it stands for. */
  const StyleWords: map<string, string> := map["Primary" := "primary", "Secondary" := "secondary", "Info" := "info"]

  /** A pattern holding a character the string lacks does not occur in it. */
  lemma MissingCharNotContained(s: string, p: string, i: nat)
    requires i < |p| && p[i] !in s
    ensures !Strings.Contains(s, p)
  {
    Strings.ContainsIff(s, p);
  }

  /** An outline label and its class carry the markers; a plain label and its class carry neither. */
  predicate OutlineShaped(l: string, c: string) {
    || (|l| >= 9 && l[|l| - 9..] == "(Outline)" && |c| >= 11 && c[4..11] == "outline")
    || ('(' !in l && 'u' !in c)
  }

  /** Each label and its class have the same outline shape. */
  lemma StyleShape(l: string)
    requires l in StyleLabels
    ensures OutlineShaped(l, ButtonStyle(l))
  {
    if l == "Primary (Outline)" {
      OutlineCase(l, "btn-outline-primary", "Primary", "primary");
    } else if l == "Secondary (Outline)" {
      OutlineCase(l, "btn-outline-secondary", "Secondary", "secondary");
    } else if l == "Info (Outline)" {
      OutlineCase(l, "btn-outline-info", "Info", "info");
    } else if l == "Primary" {
      PlainCase(l, "btn-primary");
    } else if l == "Secondary" {
      PlainCase(l, "btn-secondary");
    } else {
      PlainCase(l, "btn-info");
    }
  }

  /** `<Word> (Outline)` and its class `btn-outline-<word>` have the outline shape. */
  lemma OutlineCase(l: string, c: string, word: string, lower: string)
    requires l == word + " (Outline)" && c == "btn-outline-" + lower
    ensures OutlineShaped(l, c)
  {
    assert l[|l| - 9..] == "(Outline)";
    assert c[4..11] == "outline";
  }

  /** A label without `(` and a class without `u` have the plain shape. */
  lemma PlainCase(l: string, c: string)
    requires '(' !in l && 'u' !in c
    ensures OutlineShaped(l, c)
  {
  }

  /** With matching shapes, a label holds `(Outline)` exactly when its class holds `outline`. */
  lemma ShapedMarkers(l: string, c: string)
    requires OutlineShaped(l, c)
    ensures Strings.Contains(l, "(Outline)") <==> Strings.Contains(c, "outline")
  {
    if '(' !in l && 'u' !in c {
      MissingCharNotContained(l, "(Outline)", 0);
      MissingCharNotContained(c, "outline", 1);
    } else {
      Strings.ContainsInside(l[..|l| - 9], "(Outline)", "");
      assert l == l[..|l| - 9] + "(Outline)" + "";
      Strings.ContainsInside(c[..4], "outline", c[11..]);
      assert c == c[..4] + "outline" + c[11..];
    }
  }

  /** An outline label, and only an outline label, gets an outline class. */
  lemma ButtonStyleOutline(l: string)
    requires l in StyleLabels
    ensures Strings.Contains(l, "(Outline)") <==> Strings.Contains(ButtonStyle(l), "outline")
  {
    StyleShape(l);
    ShapedMarkers(l, ButtonStyle(l));
  }

  /**
   * The plain and the outline label of a colour word both give a class that
   * ends with the word in lower case.
   */
  lemma ButtonStyleColourWord(w: string)
    requires w in StyleWords
    ensures w in StyleLabels && w + " (Outline)" in StyleLabels
    ensures EndsWith(ButtonStyle(w), StyleWords[w]) && EndsWith(ButtonStyle(w + " (Outline)"), StyleWords[w])
  {
    if w == "Primary" {
      assert w + " (Outline)" == "Primary (Outline)";
      WordClasses(w, "primary", "btn-primary", "btn-outline-primary");
    } else if w == "Secondary" {
      assert w + " (Outline)" == "Secondary (Outline)";
      WordClasses(w, "secondary", "btn-secondary", "btn-outline-secondary");
    } else {
      assert w + " (Outline)" == "Info (Outline)";
      WordClasses(w, "info", "btn-info", "btn-outline-info");
    }
  }

  /** The classes `btn-<cw>` and `btn-outline-<cw>` both end with `cw`. */
  lemma WordClasses(w: string, cw: string, plain: string, outline: string)
    requires plain == "btn-" + cw && outline == "btn-outline-" + cw
    ensures EndsWith(plain, cw) && EndsWith(outline, cw)
  {
    assert plain[|plain| - |cw|..] == cw;
    assert outline[|outline| - |cw|..] == cw;
  }

  /** `c` ends with `suffix`. */
  predicate EndsWith(c: string, suffix: string) {
    |suffix| <= |c| && c[|c| - |suffix|..] == suffix
  }

  /** The icon colour labels the CMS offers. */
  const ColourLabels: set<string> := {"Yellow", "Red", "Darker Red"}

  /** A CSS class name as a stylesheet selects it: a lower-case letter, then letters, digits and hyphens. */
  predicate IsClassName(s: string) {
    |s| > 0 && 'a' <= s[0] <= 'z'
    && forall i :: 0 <= i < |s| ==> 'a' <= s[i] <= 'z' || '0' <= s[i] <= '9' || s[i] == '-'
  }

  /**
   * `FontAwesomeIconColour(colourChoice)` as written: the Darker Red class
   * carries a stray closing parenthesis; any other label gives no class.
   */
  function FontAwesomeIconColour(colourChoice: string): (r: string)
    ensures colourChoice !in ColourLabels <==> r == ""
  {
    if colourChoice == "Yellow" then "yellow-icon"
    else if colourChoice == "Red" then "red-icon"
    else if colourChoice == "Darker Red" then "red-darker-icon)"
    else ""
  }

  /** The class written for Darker Red is not a class name a stylesheet can select. */
  lemma DarkerRedClassMalformed()
    ensures !IsClassName(FontAwesomeIconColour("Darker Red"))
  {
    var c := FontAwesomeIconColour("Darker Red");
    assert c[15] == ')';
  }

  /** The icon colour class with the parenthesis dropped. */
  function IconColour(colourChoice: string): (r: string)
    ensures colourChoice !in ColourLabels <==> r == ""
    ensures colourChoice in ColourLabels ==> IsClassName(r)
  {
    if colourChoice == "Darker Red" then "red-darker-icon" else FontAwesomeIconColour(colourChoice)
  }

  /** Every colour label gets a well-formed class of its own, differing from the others. */
  lemma IconColourClasses(a: string, b: string)
    requires a in ColourLabels && b in ColourLabels
    ensures IsClassName(IconColour(a))
    ensures IconColour(a) == IconColour(b) <==> a == b
  {
  }

  /** The source's class is the corrected one, with the stray parenthesis only for Darker Red. */
  lemma AsWrittenColour(colourChoice: string)
    ensures FontAwesomeIconColour(colourChoice)
         == if colourChoice == "Darker Red" then IconColour(colourChoice) + ")" else IconColour(colourChoice)
  {
  }

  /** The colour word a colour class starts with: the last word of the label, in lower case. */
  const ColourWords: map<string, string> := map["Yellow" := "yellow", "Red" := "red", "Darker Red" := "red"]

  /** Each colour class is the label's colour word followed by `-icon`. */
  lemma IconColourWords(l: string)
    requires l in ColourLabels
    ensures ColourWords[l] <= IconColour(l) && EndsWith(IconColour(l), "-icon")
  {
    if l == "Yellow" {
      IconClassParts("yellow-icon", "yellow", "");
    } else if l == "Red" {
      IconClassParts("red-icon", "red", "");
    } else {
      IconClassParts("red-darker-icon", "red", "-darker");
    }
  }

  /** Only the Darker Red label, and only its class, says `darker`. */
  lemma IconColourDarker(l: string)
    requires l in ColourLabels
    ensures Strings.Contains(l, "Darker") <==> Strings.Contains(IconColour(l), "darker")
  {
    if l == "Yellow" {
      PlainColourMarkers(l, "yellow-icon");
    } else if l == "Red" {
      PlainColourMarkers(l, "red-icon");
    } else {
      DarkerMarkers(l, "red-darker-icon");
    }
  }

  /** A class `word + middle + "-icon"` starts with `word` and ends with `-icon`. */
  lemma IconClassParts(c: string, word: string, middle: string)
    requires c == word + middle + "-icon"
    ensures word <= c && EndsWith(c, "-icon")
  {
    assert c[|c| - 5..] == "-icon";
  }

  /** A label without `D` and a class without `k` carry neither marker. */
  lemma PlainColourMarkers(l: string, c: string)
    requires 'D' !in l && 'k' !in c
    ensures !Strings.Contains(l, "Darker") && !Strings.Contains(c, "darker")
  {
    MissingCharNotContained(l, "Darker", 0);
    MissingCharNotContained(c, "darker", 3);
  }

  /** `Darker Red` and `red-darker-icon` both carry the marker. */
  lemma DarkerMarkers(l: string, c: string)
    requires l == "Darker" + " Red" && c == "red-" + "darker" + "-icon"
    ensures Strings.Contains(l, "Darker") && Strings.Contains(c, "darker")
  {
    Strings.ContainsInside("", "Darker", " Red");
    assert l == "" + "Darker" + " Red";
    Strings.ContainsInside("red-", "darker", "-icon");
  }

  // ---------------------------------------------------------------------------
  // Link resolution
  // ---------------------------------------------------------------------------

  /**
   * `urlLink`: an absent URI gives nothing; an `entity:node/` URI is looked up
   * in the alias map by what follows the marker; an `internal:/` URI goes to
   * the home page; a `<nolink>` URI gives nothing; anything else is kept.
   * A node missing from the alias map gives nothing, as the lookup's
   * `undefined` does. So a link is the home page, a recorded alias or the
   * URI itself, and there is none only for an absent URI, a `<nolink>` URI
   * or an unrecorded node.
   */
  function ResolveLink(uri: Option<string>, aliases: map<string, string>): (r: Option<string>)
    ensures uri.None? ==> r.None?
    ensures uri.Some? && Strings.Contains(uri.value, "entity:node/") ==>
      var key := Strings.ReplaceFirst(uri.value, "entity:node/", "");
      r == if key in aliases then Some(aliases[key]) else None
    ensures uri.Some? && !Strings.Contains(uri.value, "entity:node/") ==>
      r == if Strings.Contains(uri.value, "internal:/") then Some("/")
           else if Strings.Contains(uri.value, "<nolink>") then None
           else uri
    ensures r.Some? ==> r.value == "/" || r.value in aliases.Values || r == uri
    ensures r.None? ==> uri.None? || Strings.Contains(uri.value, "entity:node/") || Strings.Contains(uri.value, "<nolink>")
  {
    match uri
    case None => None
    case Some(u) =>
      if Strings.Contains(u, "entity:node/") then
        var key := Strings.ReplaceFirst(u, "entity:node/", "");
        if key in aliases then
          assert aliases[key] in aliases.Values;
          Some(aliases[key])
        else None
      else if Strings.Contains(u, "internal:/") then Some("/")
      else if Strings.Contains(u, "<nolink>") then None
      else Some(u)
  }

  /** `entity:node/<id>` resolves to the alias recorded for `<id>`. */
  lemma EntityLink(id: string, aliases: map<string, string>)
    ensures ResolveLink(Some("entity:node/" + id), aliases) == if id in aliases then Some(aliases[id]) else None
  {
    Strings.PrefixOccurrence("entity:node/", id);
    Strings.ReplaceLeading("entity:node/", id);
  }

  /** Whatever follows `internal:/`, the link goes to the home page. */
  lemma InternalLink(path: string, aliases: map<string, string>)
    requires !Strings.Contains("internal:/" + path, "entity:node/")
    ensures ResolveLink(Some("internal:/" + path), aliases) == Some("/")
  {
    Strings.PrefixOccurrence("internal:/", path);
  }

  /** A URI carrying none of the three markers passes through unchanged. */
  lemma PlainLink(u: string, aliases: map<string, string>)
    requires !Strings.Contains(u, "entity:node/") && !Strings.Contains(u, "internal:/") && !Strings.Contains(u, "<nolink>")
    ensures ResolveLink(Some(u), aliases) == Some(u)
  {
  }

  // ---------------------------------------------------------------------------
  // Class names
  // ---------------------------------------------------------------------------

  /** `buttonClassName`: `btn`, the style class, then the caller's classes. */
  function ButtonClassName(style: string, buttonClass: Option<string>): (r: string)
    ensures |r| == 5 + |ButtonStyle(style)| + |buttonClass.GetOr("")|
  {
    "btn" + " " + ButtonStyle(style) + " " + buttonClass.GetOr("")
  }

  /** A class name holds no space. */
  lemma StyleClassHasNoSpace(c: string)
    requires c in StyleClasses
    ensures ' ' !in c
  {
  }

  /** Split at spaces, the class list is `btn`, the style class, then the caller's classes. */
  lemma ButtonClassTokens(style: string, buttonClass: Option<string>)
    ensures Strings.Split(ButtonClassName(style, buttonClass), ' ')
         == ["btn", ButtonStyle(style)] + Strings.Split(buttonClass.GetOr(""), ' ')
  {
    var s := ButtonStyle(style);
    StyleClassHasNoSpace(s);
    SpacedTokens("btn", s, buttonClass.GetOr(""));
  }

  /** `a b c` split at spaces, for `a` and `b` without spaces. */
  lemma SpacedTokens(a: string, b: string, c: string)
    requires ' ' !in a && ' ' !in b
    ensures Strings.Split(a + " " + b + " " + c, ' ') == [a, b] + Strings.Split(c, ' ')
  {
    Strings.SplitSpaceJoin(a + " " + b, c);
    Strings.SplitSpaceJoin(a, b);
    Strings.SplitNone(a, ' ');
    Strings.SplitNone(b, ' ');
  }

  /**
   * `buttonFontAwesomeClassName`: the icon's classes, the caller's
   * adjustment, `fa-fw` and the colour class; nothing without an icon.
   */
  function IconClassName(icon: Option<string>, iconAdjust: Option<string>, colour: string): (r: string)
    ensures icon.None? <==> r == ""
  {
    match icon
    case None => ""
    case Some(i) => i + " " + iconAdjust.GetOr("") + " " + "fa-fw" + " " + IconColour(colour)
  }

  /** Split at spaces, the icon classes end with `fa-fw` and the colour class. */
  lemma IconClassTokens(icon: string, iconAdjust: Option<string>, colour: string)
    ensures Strings.Split(IconClassName(Some(icon), iconAdjust, colour), ' ')
         == Strings.Split(icon, ' ') + Strings.Split(iconAdjust.GetOr(""), ' ') + ["fa-fw", IconColour(colour)]
  {
    ColourClassHasNoSpace(colour);
    TrailingTokens(icon, iconAdjust.GetOr(""), IconColour(colour));
  }

  /** A colour class holds no space. */
  lemma ColourClassHasNoSpace(colour: string)
    ensures ' ' !in IconColour(colour)
  {
    if colour in ColourLabels {
      IconColourClasses(colour, colour);
    }
  }

  /** `a b fa-fw c` split at spaces, for `c` without spaces. */
  lemma TrailingTokens(a: string, b: string, c: string)
    requires ' ' !in c
    ensures Strings.Split(a + " " + b + " " + "fa-fw" + " " + c, ' ')
         == Strings.Split(a, ' ') + Strings.Split(b, ' ') + ["fa-fw", c]
  {
    Strings.SplitSpaceJoin(a + " " + b + " " + "fa-fw", c);
    Strings.SplitSpaceJoin(a + " " + b, "fa-fw");
    Strings.SplitSpaceJoin(a, b);
    Strings.SplitNone("fa-fw", ' ');
    Strings.SplitNone(c, ' ');
  }

  // ---------------------------------------------------------------------------
  // The rendered button
  // ---------------------------------------------------------------------------

  /** The analytics goal a button may carry. */
  datatype AnalyticsGoal = AnalyticsGoal(name: Option<string>, action: Option<string>)

  /** The CMS link field. */
  datatype Link = Link(uri: Option<string>, title: Option<string>)

  /** The CMS button paragraph; `None` marks a field that is absent. */
  datatype ButtonData = ButtonData(
    drupalId: string,
    ctaHeading: Option<string>,
    formattedTitle: Option<string>,
    link: Link,
    style: string,
    icon: Option<string>,
    iconColour: string,
    goal: Option<AnalyticsGoal>)

  /** The rendered element. `tracking` is the analytics category and action of the click handler. */
  datatype ButtonView = ButtonView(
    key: string,
    heading: Option<string>,
    external: bool,
    href: Option<string>,
    className: string,
    iconClassName: string,
    textClassName: string,
    title: string,
    tracking: Option<(string, string)>)

  /** The title shown when neither a formatted title nor a link title is entered. */
  const NoTitle: string := "no title entered"

  /** The button text: the formatted title, else the link title, else the placeholder. */
  function ButtonTitle(data: ButtonData): (r: string)
    ensures data.formattedTitle.Some? ==> r == data.formattedTitle.value
    ensures data.formattedTitle.None? && data.link.title.Some? ==> r == data.link.title.value
    ensures data.formattedTitle.None? && data.link.title.None? ==> r == NoTitle
  {
    if data.formattedTitle.Some? then data.formattedTitle.value
    else if data.link.title.Some? then data.link.title.value
    else NoTitle
  }

  /** The analytics category and action, when the goal carries both. */
  function Tracking(goal: Option<AnalyticsGoal>): (r: Option<(string, string)>)
    ensures r.Some? <==> goal.Some? && goal.value.name.Some? && goal.value.action.Some?
    ensures r.Some? ==> r.value == (goal.value.name.value, goal.value.action.value)
  {
    match goal
    case Some(AnalyticsGoal(Some(n), Some(a))) => Some((n, a))
    case _ => None
  }

  /**
   * `Button(buttonData, buttonClass, buttonFAIconAdjust, buttonTextClass)`.
   * Without a link URI the render reads `includes` of nothing and fails,
   * which `None` stands for.
   */
  function RenderButton(data: ButtonData, aliases: map<string, string>, buttonClass: Option<string>,
                        iconAdjust: Option<string>, textClass: Option<string>): (r: Option<ButtonView>)
    ensures r.None? <==> data.link.uri.None?
    ensures r.Some? ==> (r.value.external <==> Strings.Contains(data.link.uri.value, "http"))
    ensures r.Some? ==> r.value.href == ResolveLink(data.link.uri, aliases)
    ensures r.Some? ==> (r.value.tracking.Some? <==> data.goal.Some? && data.goal.value.name.Some? && data.goal.value.action.Some?)
    ensures r.Some? ==> r.value.title == ButtonTitle(data) && r.value.key == data.drupalId
    ensures r.Some? ==> r.value.className == ButtonClassName(data.style, buttonClass)
    ensures r.Some? ==> r.value.iconClassName == IconClassName(data.icon, iconAdjust, data.iconColour)
    ensures r.Some? ==> r.value.heading == if data.ctaHeading.Some? then Some("<p>" + data.ctaHeading.value + "</p>") else None
    ensures r.Some? && r.value.href.Some? ==>
      var h := r.value.href.value;
      h == "/" || h in aliases.Values || h == data.link.uri.value
    ensures r.Some? ==> r.value.title == data.formattedTitle.GetOr(data.link.title.GetOr(NoTitle))
    ensures r.Some? && r.value.tracking.Some? ==>
      r.value.tracking.value == (data.goal.value.name.value, data.goal.value.action.value)
    ensures r.Some? ==>
      Strings.Split(r.value.className, ' ') == ["btn", ButtonStyle(data.style)] + Strings.Split(buttonClass.GetOr(""), ' ')
    ensures r.Some? ==> (r.value.iconClassName == "" <==> data.icon.None?)
    ensures r.Some? && data.icon.Some? ==>
      Strings.Split(r.value.iconClassName, ' ')
        == Strings.Split(data.icon.value, ' ') + Strings.Split(iconAdjust.GetOr(""), ' ') + ["fa-fw", IconColour(data.iconColour)]
  {
    match data.link.uri
    case None => None
    case Some(u) =>
      ButtonClassTokens(data.style, buttonClass);
      assert data.icon.Some? ==>
        Strings.Split(IconClassName(data.icon, iconAdjust, data.iconColour), ' ')
          == Strings.Split(data.icon.value, ' ') + Strings.Split(iconAdjust.GetOr(""), ' ') + ["fa-fw", IconColour(data.iconColour)]
      by {
        if data.icon.Some? {
          IconClassTokens(data.icon.value, iconAdjust, data.iconColour);
        }
      }
      var heading := if data.ctaHeading.Some? then Some("<p>" + data.ctaHeading.value + "</p>") else None;
      Some(ButtonView(
        data.drupalId,
        heading,
        Strings.Contains(u, "http"),
        ResolveLink(data.link.uri, aliases),
        ButtonClassName(data.style, buttonClass),
        IconClassName(data.icon, iconAdjust, data.iconColour),
        textClass.GetOr(""),
        ButtonTitle(data),
        Tracking(data.goal)))
  }
}
