/**
 * The view-model helpers of the program page template: the variant
 * heading, the variant count cards, the tab list of the program
 * information section, the last-modified dates and the hero image.
 * The React elements they produce are modelled by the records they are
 * built from.
 */
module ProgramPage {
  import opened Wrappers

  // ---------------------------------------------------------------------------
  // Program variants
  // ---------------------------------------------------------------------------

  /** A `field_variant_type` taxonomy term. */
  datatype VariantType = VariantType(name: string)

  /** An entry of `field_program_variants`; `variantType` is `None` when the reference is `null`. */
  datatype VariantEdge = VariantEdge(typename: string, variantType: Option<VariantType>)

  const VariantTypename: string := "paragraph__program_variants"

  /** An entry counts as a variant when it is a program-variants paragraph with a variant type. */
  predicate Qualifies(e: VariantEdge) {
    e.typename == VariantTypename && e.variantType.Some?
  }

  /** The variant-type names of the qualifying entries, in input order. */
  function VariantLabels(data: seq<VariantEdge>): (r: seq<string>)
    decreases |data|
  {
    if data == [] then []
    else if Qualifies(data[0]) then [data[0].variantType.value.name] + VariantLabels(data[1..])
    else VariantLabels(data[1..])
  }

  /** Entry `e` is a variant labelled `l`. */
  predicate Carries(e: VariantEdge, l: string) {
    Qualifies(e) && e.variantType.value.name == l
  }

  /** A label is collected exactly when some qualifying entry carries it. */
  lemma {:induction false} VariantLabelsMembership(data: seq<VariantEdge>)
    ensures forall l :: l in VariantLabels(data) <==> exists e :: e in data && Carries(e, l)
    ensures |VariantLabels(data)| <= |data|
    decreases |data|
  {
    if data != [] {
      VariantLabelsMembership(data[1..]);
      var tail := data[1..];
      assert forall e :: e in data <==> e == data[0] || e in tail;
      forall l
        ensures l in VariantLabels(data) <==> exists e :: e in data && Carries(e, l)
      {
        if l in VariantLabels(tail) {
          var e :| e in tail && Carries(e, l);
          assert e in data;
        }
        if Carries(data[0], l) {
          assert data[0] in data;
        }
      }
    }
  }

  /** No element occurs twice. */
  predicate Distinct<T(==)>(s: seq<T>) {
    forall i, j :: 0 <= i < j < |s| ==> s[i] != s[j]
  }

  /**
   * `[...new Set(s)]`: the elements of `s` without repeats, in the order of
   * their first occurrence.
   */
  function Dedupe<T(==)>(s: seq<T>): seq<T>
    decreases |s|
  {
    if s == [] then []
    else
      var d := Dedupe(s[..|s| - 1]);
      if s[|s| - 1] in d then d else d + [s[|s| - 1]]
  }

  /** Deduplicating a list with one more element at the end. */
  lemma DedupeSnoc<T>(init: seq<T>, last: T)
    ensures Dedupe(init + [last]) == if last in Dedupe(init) then Dedupe(init) else Dedupe(init) + [last]
  {
    assert (init + [last])[..|init|] == init;
  }

  /** The index of the first occurrence of `x` in `s`. */
  function FirstIndex<T(==)>(s: seq<T>, x: T): (r: nat)
    requires x in s
    ensures r < |s| && s[r] == x
    decreases |s|
  {
    if s[0] == x then 0 else FirstIndex(s[1..], x) + 1
  }

  /** No occurrence comes before the first one. */
  lemma {:induction false} FirstIndexLeast<T>(s: seq<T>, x: T, k: nat)
    requires k < |s| && s[k] == x
    ensures FirstIndex(s, x) <= k
    decreases |s|
  {
    if s[0] != x {
      assert s[1..][k - 1] == x;
      FirstIndexLeast(s[1..], x, k - 1);
    }
  }

  /** Appending an element moves no first occurrence, and a new element first occurs at the end. */
  lemma FirstIndexSnoc<T>(init: seq<T>, last: T, x: T)
    requires x in init || x == last
    ensures x in init ==> FirstIndex(init + [last], x) == FirstIndex(init, x)
    ensures x !in init ==> FirstIndex(init + [last], x) == |init|
  {
    var s := init + [last];
    var b := FirstIndex(s, x);
    if x in init {
      var a := FirstIndex(init, x);
      assert s[a] == x;
      FirstIndexLeast(s, x, a);
      assert init[b] == x;
      FirstIndexLeast(init, x, b);
    }
  }

  /** The deduplicated list holds exactly the elements of `s`. */
  lemma {:induction false} DedupeMembers<T>(s: seq<T>)
    ensures forall x :: x in Dedupe(s) <==> x in s
    decreases |s|
  {
    if s != [] {
      var init, last := s[..|s| - 1], s[|s| - 1];
      assert s == init + [last];
      DedupeSnoc(init, last);
      DedupeMembers(init);
    }
  }

  /** The deduplicated list has no repeats. */
  lemma {:induction false} DedupeDistinct<T>(s: seq<T>)
    ensures Distinct(Dedupe(s))
    decreases |s|
  {
    if s != [] {
      var init, last := s[..|s| - 1], s[|s| - 1];
      assert s == init + [last];
      DedupeSnoc(init, last);
      DedupeDistinct(init);
    }
  }

  /** Elements of `d` come in the order of their first occurrence in `s`. */
  ghost predicate FirstOccurrenceOrder<T>(s: seq<T>, d: seq<T>)
    requires forall x :: x in d ==> x in s
  {
    forall i, j :: 0 <= i < j < |d| ==> FirstIndex(s, d[i]) < FirstIndex(s, d[j])
  }

  /** The deduplicated list follows the order of first occurrence in `s`. */
  lemma {:induction false} DedupeOrder<T>(s: seq<T>)
    ensures forall x :: x in Dedupe(s) ==> x in s
    ensures FirstOccurrenceOrder(s, Dedupe(s))
    decreases |s|
  {
    DedupeMembers(s);
    if s != [] {
      var init, last := s[..|s| - 1], s[|s| - 1];
      assert s == init + [last];
      DedupeOrder(init);
      DedupeOrderSnoc(init, last);
    }
  }

  /** The order property carries over from `init` to `init + [last]`. */
  lemma DedupeOrderSnoc<T>(init: seq<T>, last: T)
    requires forall x :: x in Dedupe(init) ==> x in init
    requires FirstOccurrenceOrder(init, Dedupe(init))
    ensures forall x :: x in Dedupe(init + [last]) ==> x in init + [last]
    ensures FirstOccurrenceOrder(init + [last], Dedupe(init + [last]))
  {
    var s := init + [last];
    var d := Dedupe(init);
    var r := Dedupe(s);
    DedupeSnoc(init, last);
    DedupeMembers(init);
    DedupeMembers(s);
    forall i, j | 0 <= i < j < |r|
      ensures FirstIndex(s, r[i]) < FirstIndex(s, r[j])
    {
      assert r[i] == d[i];
      FirstIndexSnoc(init, last, d[i]);
      if j < |d| {
        assert r[j] == d[j];
        FirstIndexSnoc(init, last, d[j]);
      } else {
        assert r[j] == last;
        FirstIndexSnoc(init, last, last);
      }
    }
  }

  /** A list without repeats is its own deduplication. */
  lemma {:induction false} DedupeKeepsDistinct<T>(s: seq<T>)
    requires Distinct(s)
    ensures Dedupe(s) == s
    decreases |s|
  {
    if s != [] {
      var init, last := s[..|s| - 1], s[|s| - 1];
      assert s == init + [last];
      assert Distinct(init);
      DedupeKeepsDistinct(init);
      DedupeSnoc(init, last);
      assert last !in init by {
        forall k | 0 <= k < |init|
          ensures init[k] != last
        {
          assert init[k] == s[k];
        }
      }
    }
  }

  // ---------------------------------------------------------------------------
  // The variant heading
  // ---------------------------------------------------------------------------

  /** The elements of `ls` with `sep` between neighbours. */
  function Join(ls: seq<string>, sep: string): string
    decreases |ls|
  {
    if ls == [] then ""
    else if |ls| == 1 then ls[0]
    else Join(ls[..|ls| - 1], sep) + sep + ls[|ls| - 1]
  }

  /**
   * An English list with a serial comma: "", "A", "A and B",
   * "A, B, and C", "A, B, C, and D", ...
   */
  function EnglishList(ls: seq<string>): string {
    if |ls| <= 1 then Join(ls, "")
    else if |ls| == 2 then ls[0] + " and " + ls[1]
    else Join(ls[..|ls| - 1], ", ") + ", and " + ls[|ls| - 1]
  }

  lemma JoinStep(ls: seq<string>, sep: string, i: nat)
    requires 0 < i < |ls|
    ensures Join(ls[..i + 1], sep) == Join(ls[..i], sep) + sep + ls[i]
  {
    assert ls[..i + 1][..i] == ls[..i];
  }

  /**
   * The joining loop of `prepareVariantHeading`: before every label but the
   * first, a comma when there are more than two labels, a space, and "and "
   * before the last.
   */
  method JoinLabels(labels: seq<string>) returns (heading: string)
    ensures heading == EnglishList(labels)
  {
    var n := |labels|;
    var sep := if n > 2 then ", " else " ";
    heading := "";
    var i := 0;
    while i < n
      invariant 0 <= i <= n
      invariant i == 0 ==> heading == ""
      invariant 0 < i < n ==> heading == Join(labels[..i], sep)
      invariant 0 < i == n ==> heading == EnglishList(labels)
    {
      var glue := "";
      if i > 0 {
        if n > 2 {
          glue := glue + ",";
        }
        glue := glue + " ";
        if i == n - 1 {
          glue := glue + "and ";
        }
      }
      heading := heading + glue + labels[i];
      if i == 0 {
        assert heading == labels[0] && labels[..1] == [labels[0]];
      } else if i < n - 1 {
        assert glue == sep;
        JoinStep(labels, sep, i);
      } else if n > 2 {
        assert glue == ", and ";
        assert labels[..n - 1] == labels[..i];
      } else {
        assert glue == " and " && labels[..1] == [labels[0]];
      }
      i := i + 1;
    }
    if n == 0 {
      assert EnglishList(labels) == "";
    }
  }

  /** The shape of the list for up to three labels. */
  lemma EnglishListSmall(a: string, b: string, c: string)
    ensures EnglishList([]) == ""
    ensures EnglishList([a]) == a
    ensures EnglishList([a, b]) == a + " and " + b
    ensures EnglishList([a, b, c]) == a + ", " + b + ", and " + c
  {
    assert [a, b, c][..2] == [a, b];
    assert [a, b][..1] == [a];
    assert Join([a], ", ") == a;
    assert Join([a, b], ", ") == a + ", " + b;
  }

  /** `prepareVariantHeading(variantData)`: the distinct variant labels as an English list. */
  method PrepareVariantHeading(variantData: seq<VariantEdge>) returns (heading: string)
    ensures heading == EnglishList(Dedupe(VariantLabels(variantData)))
  {
    var unique := Dedupe(VariantLabels(variantData));
    heading := JoinLabels(unique);
  }

  // ---------------------------------------------------------------------------
  // Variant counts
  // ---------------------------------------------------------------------------

  /** The four counters of `CountProgramVariants`. */
  datatype Bucket = Majors | Minors | AssociateDiplomas | Certificates

  /** The `switch` on the variant name: three names are recognised, anything else is a major. */
  function BucketOf(name: string): (r: Bucket)
    ensures name !in {"Associate Diplomas", "Certificates", "Minors"} ==> r == Majors
    ensures name in {"Associate Diplomas", "Certificates", "Minors"} ==> r != Majors
  {
    if name == "Associate Diplomas" then AssociateDiplomas
    else if name == "Certificates" then Certificates
    else if name == "Minors" then Minors
    else Majors
  }

  /** The number of qualifying entries whose name falls into bucket `b`. */
  function BucketCount(data: seq<VariantEdge>, b: Bucket): nat
    decreases |data|
  {
    if data == [] then 0
    else
      var here := if Qualifies(data[0]) && BucketOf(data[0].variantType.value.name) == b then 1 else 0;
      here + BucketCount(data[1..], b)
  }

  /** Every qualifying entry lands in exactly one bucket: the counts add up to the number of variants. */
  lemma {:induction false} BucketCountsSum(data: seq<VariantEdge>)
    ensures BucketCount(data, Majors) + BucketCount(data, Minors)
      + BucketCount(data, AssociateDiplomas) + BucketCount(data, Certificates) == |VariantLabels(data)|
    decreases |data|
  {
    if data != [] {
      BucketCountsSum(data[1..]);
    }
  }

  /** The counting loop of `CountProgramVariants`. */
  method CountBuckets(data: seq<VariantEdge>) returns (majors: nat, minors: nat, assocDiplomas: nat, certificates: nat)
    ensures majors == BucketCount(data, Majors) && minors == BucketCount(data, Minors)
    ensures assocDiplomas == BucketCount(data, AssociateDiplomas) && certificates == BucketCount(data, Certificates)
  {
    majors, minors, assocDiplomas, certificates := 0, 0, 0, 0;
    var i := |data|;
    // The counters only grow, so counting from the back gives the same totals.
    while i > 0
      invariant 0 <= i <= |data|
      invariant majors == BucketCount(data[i..], Majors) && minors == BucketCount(data[i..], Minors)
      invariant assocDiplomas == BucketCount(data[i..], AssociateDiplomas)
      invariant certificates == BucketCount(data[i..], Certificates)
    {
      i := i - 1;
      assert data[i..][1..] == data[i + 1..];
      var e := data[i];
      if e.typename == VariantTypename && e.variantType.Some? {
        match BucketOf(e.variantType.value.name)
        case AssociateDiplomas => assocDiplomas := assocDiplomas + 1;
        case Certificates => certificates := certificates + 1;
        case Minors => minors := minors + 1;
        case Majors => majors := majors + 1;
      }
    }
    assert data[0..] == data;
  }

  /** A statistics card: the count and the bucket whose caption it shows. */
  datatype Card = Card(count: nat, bucket: Bucket) {
    function Caption(): string { CaptionOf(bucket) }
  }

  function CaptionOf(b: Bucket): string {
    match b
    case Majors => "Specialized Majors"
    case Minors => "Specialized Minors"
    case AssociateDiplomas => "Associate Diplomas"
    case Certificates => "Optional Certificates"
  }

  /**
   * Each recognised name is counted under the card whose caption ends with
   * that name, and no two of them share a card.
   */
  lemma BucketCaptions(name: string, other: string)
    requires name in {"Associate Diplomas", "Certificates", "Minors"}
    requires other in {"Associate Diplomas", "Certificates", "Minors"}
    ensures var c := CaptionOf(BucketOf(name)); |name| <= |c| && c[|c| - |name|..] == name
    ensures BucketOf(name) == BucketOf(other) <==> name == other
  {
    if name == "Associate Diplomas" {
      CaptionSuffix(CaptionOf(BucketOf(name)), "", name);
    } else if name == "Certificates" {
      CaptionSuffix(CaptionOf(BucketOf(name)), "Optional ", name);
    } else {
      CaptionSuffix(CaptionOf(BucketOf(name)), "Specialized ", name);
    }
  }

  /** A caption `prefix + name` ends with `name`. */
  lemma CaptionSuffix(caption: string, prefix: string, name: string)
    requires caption == prefix + name
    ensures |name| <= |caption| && caption[|caption| - |name|..] == name
  {
    assert caption[|caption| - |name|..] == name;
  }

  /** The four possible cards, in the order they are written out. */
  function Candidates(data: seq<VariantEdge>): seq<Card> {
    [ Card(BucketCount(data, Majors), Majors),
      Card(BucketCount(data, Minors), Minors),
      Card(BucketCount(data, AssociateDiplomas), AssociateDiplomas),
      Card(BucketCount(data, Certificates), Certificates) ]
  }

  /** The `length > 0 &&` guards: only the cards with a positive count. */
  function NonEmptyCards(cards: seq<Card>): seq<Card>
    decreases |cards|
  {
    if cards == [] then []
    else (if cards[0].count > 0 then [cards[0]] else []) + NonEmptyCards(cards[1..])
  }

  /**
   * `CountProgramVariants(variantData)`: nothing without variant data, else
   * one card per non-empty bucket in the order majors, minors, associate
   * diplomas, certificates.
   */
  function CountProgramVariants(variantData: Option<seq<VariantEdge>>): Option<seq<Card>> {
    match variantData
    case None => None
    case Some(data) => if |data| == 0 then None else Some(NonEmptyCards(Candidates(data)))
  }

  /** The position of a bucket in the card order. */
  function Rank(b: Bucket): nat {
    match b
    case Majors => 0
    case Minors => 1
    case AssociateDiplomas => 2
    case Certificates => 3
  }

  /** Cards strictly follow the bucket order. */
  predicate InCardOrder(cards: seq<Card>) {
    forall i, j :: 0 <= i < j < |cards| ==> Rank(cards[i].bucket) < Rank(cards[j].bucket)
  }

  /** The total count on a list of cards. */
  function TotalCount(cards: seq<Card>): nat
    decreases |cards|
  {
    if cards == [] then 0 else cards[0].count + TotalCount(cards[1..])
  }

  /** Dropping the empty cards keeps exactly the cards with a positive count, and the total. */
  lemma {:induction false} NonEmptyCardsFacts(cards: seq<Card>)
    ensures forall c :: c in NonEmptyCards(cards) <==> c in cards && c.count > 0
    ensures TotalCount(NonEmptyCards(cards)) == TotalCount(cards)
    decreases |cards|
  {
    if cards != [] {
      var head := if cards[0].count > 0 then [cards[0]] else [];
      var tail := NonEmptyCards(cards[1..]);
      NonEmptyCardsFacts(cards[1..]);
      TotalCountAppend(head, tail);
      assert forall c :: c in cards <==> c == cards[0] || c in cards[1..];
    }
  }

  /** A lower bound on the ranks of the cards holds for the cards that are kept. */
  lemma {:induction false} NonEmptyCardsAbove(cards: seq<Card>, m: int)
    requires forall i :: 0 <= i < |cards| ==> m < Rank(cards[i].bucket)
    ensures forall i :: 0 <= i < |NonEmptyCards(cards)| ==> m < Rank(NonEmptyCards(cards)[i].bucket)
    decreases |cards|
  {
    if cards != [] {
      var tail := cards[1..];
      assert forall i :: 0 <= i < |tail| ==> tail[i] == cards[i + 1];
      NonEmptyCardsAbove(tail, m);
    }
  }

  /** Dropping cards keeps the card order. */
  lemma {:induction false} NonEmptyCardsOrder(cards: seq<Card>)
    requires InCardOrder(cards)
    ensures InCardOrder(NonEmptyCards(cards))
    decreases |cards|
  {
    if cards != [] {
      var tail := cards[1..];
      assert forall i :: 0 <= i < |tail| ==> tail[i] == cards[i + 1];
      NonEmptyCardsOrder(tail);
      NonEmptyCardsAbove(tail, Rank(cards[0].bucket));
    }
  }

  lemma {:induction false} TotalCountAppend(a: seq<Card>, b: seq<Card>)
    ensures TotalCount(a + b) == TotalCount(a) + TotalCount(b)
    decreases |a|
  {
    if a == [] {
      assert a + b == b;
    } else {
      assert (a + b)[1..] == a[1..] + b;
      TotalCountAppend(a[1..], b);
    }
  }

  lemma TotalCountOfFour(a: Card, b: Card, c: Card, d: Card)
    ensures TotalCount([a, b, c, d]) == a.count + b.count + c.count + d.count
  {
    assert [d][1..] == [];
    assert TotalCount([d]) == d.count;
    assert [c, d][1..] == [d];
    assert TotalCount([c, d]) == c.count + d.count;
    assert [b, c, d][1..] == [c, d];
    assert TotalCount([b, c, d]) == b.count + c.count + d.count;
    assert [a, b, c, d][1..] == [b, c, d];
  }

  /** The four candidate cards: one per bucket, with its count, in bucket order. */
  lemma CandidatesFacts(data: seq<VariantEdge>)
    ensures forall b :: Card(BucketCount(data, b), b) in Candidates(data)
    ensures forall c :: c in Candidates(data) ==> c.count == BucketCount(data, c.bucket)
    ensures InCardOrder(Candidates(data))
    ensures TotalCount(Candidates(data)) == |VariantLabels(data)|
  {
    var cand := Candidates(data);
    BucketCountsSum(data);
    TotalCountOfFour(cand[0], cand[1], cand[2], cand[3]);
    assert cand == [cand[0], cand[1], cand[2], cand[3]];
    forall b
      ensures Card(BucketCount(data, b), b) in cand
    {
      assert cand[Rank(b)] == Card(BucketCount(data, b), b);
    }
  }

  /**
   * There are cards exactly when there is variant data; a bucket has a card,
   * with its count, exactly when it is not empty; every card is such a card;
   * captions follow the order majors, minors, associate diplomas,
   * certificates; and the counts on the cards add up to the number of
   * variants.
   */
  lemma CountProgramVariantsCards(variantData: Option<seq<VariantEdge>>)
    ensures CountProgramVariants(variantData).Some? <==> variantData.Some? && |variantData.value| > 0
    ensures CountProgramVariants(variantData).Some? ==>
      var cards := CountProgramVariants(variantData).value;
      var data := variantData.value;
      && (forall b :: Card(BucketCount(data, b), b) in cards <==> BucketCount(data, b) > 0)
      && (forall c :: c in cards ==> c.count > 0 && c.count == BucketCount(data, c.bucket))
      && InCardOrder(cards)
      && TotalCount(cards) == |VariantLabels(data)|
  {
    if variantData.Some? && |variantData.value| > 0 {
      var data := variantData.value;
      var cand := Candidates(data);
      CandidatesFacts(data);
      NonEmptyCardsFacts(cand);
      NonEmptyCardsOrder(cand);
    }
  }

  // ---------------------------------------------------------------------------
  // Program information tabs
  // ---------------------------------------------------------------------------

  /** A tab: its key number, whether it is the active one, its heading and its element id. */
  datatype Tab = Tab(key: nat, active: bool, heading: string, id: string)

  /** The inputs the tab guards read; a count of 0 stands for absent or empty data. */
  datatype ProgramInfo = ProgramInfo(
    courseNotes: string,
    courseCount: nat,
    variantHeading: string,
    careerCount: nat,
    employerCount: nat)

  /** The tabs whose guard holds, as (heading, id), in the fixed order courses, variants, careers, employers. */
  function IncludedTabs(info: ProgramInfo): seq<(string, string)> {
    TabIf(info.courseNotes != "" || info.courseCount > 0, CoursesTab)
    + TabIf(info.variantHeading != "", (info.variantHeading, "pills-variants"))
    + TabIf(info.careerCount > 0, CareersTab)
    + TabIf(info.employerCount > 0, EmployersTab)
  }

  /** The heading and pane id of the fixed tabs. */
  const CoursesTab: (string, string) := ("Selected Courses", "pills-courses")
  const CareersTab: (string, string) := ("Careers", "pills-careers")
  const EmployersTab: (string, string) := ("Employers", "pills-employer")

  /** The one-entry list for a tab whose condition holds, else nothing. */
  function TabIf(included: bool, entry: (string, string)): (r: seq<(string, string)>)
    ensures included <==> r == [entry]
    ensures |r| == if included then 1 else 0
  {
    if included then [entry] else []
  }

  /** The loop-carried state of `renderProgramInfo`: `activeValue`, `activeTabExists`, `key` and the tabs so far. */
  datatype TabBuild = TabBuild(activeValue: bool, activeTabExists: bool, key: nat, tabs: seq<Tab>)

  /** The state agrees with the tabs pushed so far. */
  predicate Consistent(b: TabBuild) {
    b.key == |b.tabs| && b.activeTabExists == (b.tabs != []) && (b.activeValue <==> |b.tabs| <= 1)
  }

  /**
   * One tab block: when its condition holds, the first tab claims the active
   * flag, every later one clears `activeValue`, and the key is bumped before
   * it is used; otherwise nothing changes.
   */
  method IncludeTab(b: TabBuild, included: bool, entry: (string, string), ghost inc: seq<(string, string)>)
    returns (r: TabBuild)
    requires Consistent(b) && TabsMatch(b.tabs, inc)
    ensures Consistent(r) && TabsMatch(r.tabs, inc + TabIf(included, entry))
    ensures r.tabs == b.tabs + (if included then [Tab(|b.tabs| + 1, b.tabs == [], entry.0, entry.1)] else [])
  {
    TabsMatchStep(b.tabs, inc, included, entry);
    r := b;
    if included {
      var activeValue, activeTabExists := b.activeValue, b.activeTabExists;
      if !activeTabExists {
        activeTabExists := true;
      } else {
        activeValue := false;
      }
      var key := b.key + 1;
      r := TabBuild(activeValue, activeTabExists, key, b.tabs + [Tab(key, activeValue, entry.0, entry.1)]);
    }
  }

  /** Tab `i` is the included tab `i`, keyed `i + 1`, and only the first is active. */
  predicate TabsMatch(tabs: seq<Tab>, inc: seq<(string, string)>) {
    |tabs| == |inc| && forall i :: 0 <= i < |tabs| ==> tabs[i] == Tab(i + 1, i == 0, inc[i].0, inc[i].1)
  }

  /** One tab block keeps the tabs matched to the entries included so far. */
  lemma TabsMatchStep(tabs: seq<Tab>, inc: seq<(string, string)>, included: bool, entry: (string, string))
    requires TabsMatch(tabs, inc)
    ensures TabsMatch(tabs + (if included then [Tab(|tabs| + 1, tabs == [], entry.0, entry.1)] else []),
                      inc + TabIf(included, entry))
  {
    if !included {
      assert tabs + [] == tabs && inc + [] == inc;
    }
  }

  /**
   * `renderProgramInfo`: the tab assembly. `None` stands for the `null` it
   * returns when no tab is included.
   */
  method RenderProgramInfo(info: ProgramInfo) returns (r: Option<seq<Tab>>)
    ensures r.None? <==> IncludedTabs(info) == []
    ensures r.Some? ==> TabsMatch(r.value, IncludedTabs(info))
  {
    var courses := info.courseNotes != "" || info.courseCount > 0;
    var variants := info.variantHeading != "";
    var careers := info.careerCount > 0;
    var employers := info.employerCount > 0;
    var tabContent := courses || variants || careers || employers;
    var b := TabBuild(true, false, 0, []);
    ghost var inc: seq<(string, string)> := [];
    b := IncludeTab(b, courses, CoursesTab, inc);
    inc := inc + TabIf(courses, CoursesTab);
    var variantsTab := (info.variantHeading, "pills-variants");
    b := IncludeTab(b, variants, variantsTab, inc);
    inc := inc + TabIf(variants, variantsTab);
    b := IncludeTab(b, careers, CareersTab, inc);
    inc := inc + TabIf(careers, CareersTab);
    b := IncludeTab(b, employers, EmployersTab, inc);
    inc := inc + TabIf(employers, EmployersTab);
    assert [] + TabIf(courses, CoursesTab) == TabIf(courses, CoursesTab);
    assert inc == IncludedTabs(info);
    assert tabContent <==> |inc| > 0;
    if tabContent {
      r := Some(b.tabs);
    } else {
      r := None;
    }
  }

  /** Exactly one tab is active when any is included, and the keys run 1..n. */
  lemma OneActiveTab(tabs: seq<Tab>, inc: seq<(string, string)>)
    requires TabsMatch(tabs, inc) && tabs != []
    ensures tabs[0].active && forall i :: 0 < i < |tabs| ==> !tabs[i].active
    ensures forall i :: 0 <= i < |tabs| ==> tabs[i].key == i + 1
  {
  }

  // ---------------------------------------------------------------------------
  // Dates and the hero image
  // ---------------------------------------------------------------------------

  /** An edge whose node carries a `changed` timestamp. */
  datatype ChangedEdge = ChangedEdge(changed: string)

  /** `retrieveLastModifiedDates(content)`: the `changed` values in input order; none when absent. */
  method RetrieveLastModifiedDates(content: Option<seq<ChangedEdge>>) returns (dates: seq<string>)
    ensures content.None? ==> dates == []
    ensures content.Some? ==>
      |dates| == |content.value| && forall i :: 0 <= i < |dates| ==> dates[i] == content.value[i].changed
  {
    dates := [];
    if content.Some? && |content.value| > 0 {
      var edges := content.value;
      var i := 0;
      while i < |edges|
        invariant 0 <= i <= |edges|
        invariant |dates| == i && forall k :: 0 <= k < i ==> dates[k] == edges[k].changed
      {
        dates := dates + [edges[i].changed];
        i := i + 1;
      }
    }
  }

  /** The hero images: the page's own images if there are any, else the tagged ones, else none. */
  function HeroImage<T>(imageData: Option<seq<T>>, imageTaggedData: Option<seq<T>>): (r: Option<seq<T>>)
    ensures r.Some? ==> r.value != [] && (r == imageData || r == imageTaggedData)
    ensures r.None? <==> (imageData.None? || imageData.value == []) && (imageTaggedData.None? || imageTaggedData.value == [])
    ensures imageData.Some? && imageData.value != [] ==> r == imageData
  {
    if imageData.Some? && |imageData.value| > 0 then imageData
    else if imageTaggedData.Some? && |imageTaggedData.value| > 0 then imageTaggedData
    else None
  }
}
