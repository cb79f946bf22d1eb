/**
 * The data-shaping half of gatsby-node.js: the path aliases built from
 * slugs, the fields `onCreateNode` derives for a node, and the records
 * `createPages` emits through `processPage` and `createNodeAlias`.
 *
 * Gatsby's actions are not called; each operation returns the nodes, fields
 * and pages it would have created, in order. `createNodeId` is a parameter.
 */
module GatsbyNode {
  import opened Wrappers
  import Slug
  import Json
  import Strings

  // ---------------------------------------------------------------------------
  // Paths
  // ---------------------------------------------------------------------------

  /** The segments of an absolute path: the parts after the leading `/`. */
  function Segments(path: string): Option<seq<string>> {
    if path != [] && path[0] == '/' then Some(Strings.Split(path[1..], '/')) else None
  }

  lemma SlugHasNoSlash(s: string)
    requires Slug.IsSlug(s)
    ensures '/' !in s
  {
  }

  // ---------------------------------------------------------------------------
  // Aliases
  // ---------------------------------------------------------------------------

  /**
   * `createContentTypeAlias(node, prepend)`: `/` and the slug of the title,
   * behind `/` and the slug of `prepend` when `prepend` is not empty.
   * `createTaxonomyAlias` is the same operation on a term's `name`.
   */
  function ContentTypeAlias(title: string, prepend: string): string {
    var alias := "/" + Slug.Slugify(title);
    if prepend != "" then "/" + Slug.Slugify(prepend) + alias else alias
  }

  /** The four alias families `createPages` uses, one per content type. */
  datatype AliasKind = PageAlias | ArticleAlias | ProgramAlias | LandingAlias

  /** The fixed first segment of a family: `news`, `programs`, `topics`; none for basic pages. */
  function Prefix(kind: AliasKind): string {
    match kind
    case PageAlias => ""
    case ArticleAlias => "news"
    case ProgramAlias => "programs"
    case LandingAlias => "topics"
  }

  /** `createContentTypeAlias`, `createArticleAlias`, `createProgramAlias`, `createLandingAlias`. */
  function AliasFor(kind: AliasKind, title: string): string {
    ContentTypeAlias(title, Prefix(kind))
  }

  /** The prefixes are already slugs, so they appear in the path as written. */
  lemma PrefixesAreSlugs(kind: AliasKind)
    ensures Slug.IsSlug(Prefix(kind))
    ensures Slug.Slugify(Prefix(kind)) == Prefix(kind)
  {
    Slug.SlugifyFixesSlugs(Prefix(kind));
  }

  /** A path of one slug segment reads back as that segment. */
  lemma PlainPathSegments(slug: string)
    requires Slug.IsSlug(slug)
    ensures Segments("/" + slug) == Some([slug])
  {
    SlugHasNoSlash(slug);
    Strings.SplitNone(slug, '/');
    assert ("/" + slug)[1..] == slug;
  }

  /** A path of two slug segments reads back as those two segments. */
  lemma PrefixedPathSegments(p: string, slug: string)
    requires Slug.IsSlug(p) && Slug.IsSlug(slug)
    ensures Segments("/" + p + "/" + slug) == Some([p, slug])
  {
    SlugHasNoSlash(p);
    SlugHasNoSlash(slug);
    Strings.SplitNone(slug, '/');
    Strings.SplitFirst(p, '/', slug);
    var path := "/" + p + "/" + slug;
    assert path == "/" + (p + ['/'] + slug);
    assert path[0] == '/' && path[1..] == p + ['/'] + slug;
    assert Strings.Split(path[1..], '/') == [p] + [slug];
    assert [p] + [slug] == [p, slug];
  }

  /**
   * Reading an alias back: a basic page has the one segment `slugify(title)`;
   * the other families have their prefix and then `slugify(title)`.
   */
  lemma AliasSegments(kind: AliasKind, title: string)
    ensures kind == PageAlias ==> Segments(AliasFor(kind, title)) == Some([Slug.Slugify(title)])
    ensures kind != PageAlias ==> Segments(AliasFor(kind, title)) == Some([Prefix(kind), Slug.Slugify(title)])
  {
    var slug := Slug.Slugify(title);
    var p := Prefix(kind);
    PrefixesAreSlugs(kind);
    if kind == PageAlias {
      assert AliasFor(kind, title) == "/" + slug;
      PlainPathSegments(slug);
    } else {
      assert AliasFor(kind, title) == "/" + p + "/" + slug;
      PrefixedPathSegments(p, slug);
    }
  }

  /** Two aliases coincide only within one family and only for titles with the same slug. */
  lemma AliasCollision(k1: AliasKind, t1: string, k2: AliasKind, t2: string)
    ensures AliasFor(k1, t1) == AliasFor(k2, t2) <==> k1 == k2 && Slug.Slugify(t1) == Slug.Slugify(t2)
  {
    AliasSegments(k1, t1);
    AliasSegments(k2, t2);
  }

  // ---------------------------------------------------------------------------
  // onCreateNode
  // ---------------------------------------------------------------------------

  /** A formatted text field; only `processed` is read. */
  datatype TextField = TextField(processed: string)

  /**
   * The parts of a source node `onCreateNode` reads. `None` stands for a
   * field that is `undefined` or `null`.
   */
  datatype SourceNode = SourceNode(
    internalType: string,
    drupalId: string,
    tags: Option<seq<string>>,
    body: Option<TextField>,
    description: Option<TextField>)

  /** A field added with `createNodeField`. */
  datatype NodeField =
    | TagsField(tags: Option<seq<string>>)
    | AliasField(aliasId: string)
    | ContentField(content: string)

  /** Node types whose tags field references several vocabularies. */
  const TaggedTypes: set<string> := {
    "media__image", "node__article", "node__call_to_action", "node__career", "node__course",
    "node__employer", "node__page", "node__landing_page", "node__testimonial" }

  /** Node types that get a page and therefore a path alias. */
  const AliasedTypes: set<string> := { "node__article", "node__landing_page", "node__page", "node__program" }

  /** The key `createNodeId` turns into an alias node id: `alias-` and the Drupal id. */
  function AliasKey(drupalId: string): string {
    "alias-" + drupalId
  }

  /** The text indexed for search: the body, else the description, else nothing. */
  function SearchContent(n: SourceNode): string {
    if n.body.Some? then n.body.value.processed
    else if n.description.Some? then n.description.value.processed
    else ""
  }

  /** The fields `onCreateNode` adds to `n`, in the order it adds them. */
  function OnCreateNode(n: SourceNode, createNodeId: string -> string): seq<NodeField> {
    (if n.internalType in TaggedTypes then [TagsField(n.tags)] else [])
    + (if n.internalType in AliasedTypes
       then [AliasField(createNodeId(AliasKey(n.drupalId))), ContentField(SearchContent(n))]
       else [])
  }

  /**
   * Which fields a node gets: tags exactly for the nine tagged types, an
   * alias link and search content exactly for the four page types, each at
   * most once; the alias link is the node id of `alias-<drupal id>`.
   */
  lemma OnCreateNodeFields(n: SourceNode, createNodeId: string -> string)
    ensures var fs := OnCreateNode(n, createNodeId);
      && (TagsField(n.tags) in fs <==> n.internalType in TaggedTypes)
      && (AliasField(createNodeId(AliasKey(n.drupalId))) in fs <==> n.internalType in AliasedTypes)
      && (ContentField(SearchContent(n)) in fs <==> n.internalType in AliasedTypes)
      && (forall f :: f in fs && f.TagsField? ==> f == TagsField(n.tags))
      && (forall f :: f in fs && f.AliasField? ==> f == AliasField(createNodeId(AliasKey(n.drupalId))))
      && (forall f :: f in fs && f.ContentField? ==> f == ContentField(SearchContent(n)))
      && |fs| == (if n.internalType in TaggedTypes then 1 else 0) + (if n.internalType in AliasedTypes then 2 else 0)
  {
  }

  /**
   * The `content` field a node is given: only page nodes get one, and its
   * text is the processed body, else the processed description, else empty.
   */
  lemma SearchContentField(n: SourceNode, createNodeId: string -> string, text: string)
    ensures ContentField(text) in OnCreateNode(n, createNodeId) <==>
      && n.internalType in AliasedTypes
      && text == (if n.body.Some? then n.body.value.processed
                  else if n.description.Some? then n.description.value.processed
                  else "")
  {
  }

  // ---------------------------------------------------------------------------
  // processPage and createNodeAlias
  // ---------------------------------------------------------------------------

  /** The PathAlias node `createNodeAlias` creates; `content` is the JSON text of `{key, value}`. */
  datatype AliasNode = AliasNode(
    id: string,
    key: string,
    value: string,
    parent: Option<string>,
    children: seq<string>,
    nodeType: string,
    mediaType: string,
    content: string)

  /** A page: its path, its template and the id its page query receives. */
  datatype Page = Page(path: string, component: string, contextId: string)

  /** What `createPages` asks Gatsby to do. */
  datatype Action = CreateNode(node: AliasNode) | CreatePage(page: Page)

  /** `createNodeAlias(node, alias, helpers)`: the alias node for a Drupal node. */
  function CreateNodeAlias(drupalId: string, alias: string, createNodeId: string -> string): (r: AliasNode)
    ensures r.id == r.key
    ensures Json.ParseAlias(r.content) == Some(Json.AliasData(r.key, r.value))
  {
    var aliasId := createNodeId(AliasKey(drupalId));
    var data := Json.AliasData(aliasId, alias);
    Json.AliasRoundTrip(data);
    AliasNode(aliasId, aliasId, alias, None, [], "PathAlias", "text/html", Json.StringifyAlias(data))
  }

  /** A queried node: its Gatsby id, its Drupal id and its title. */
  datatype PageNode = PageNode(id: string, drupalId: string, title: string)

  /** `processPage`: the alias node, then the page at that alias. */
  function ProcessPage(n: PageNode, contextId: string, kind: AliasKind, template: string,
                       createNodeId: string -> string): seq<Action>
  {
    var alias := AliasFor(kind, n.title);
    [CreateNode(CreateNodeAlias(n.drupalId, alias, createNodeId)), CreatePage(Page(alias, template, contextId))]
  }

  /**
   * The page and its alias node agree: the page lives at the alias the node
   * stores (and its stored content reads back to), the node id is the one
   * `onCreateNode` links the source node to, and the page query gets `contextId`.
   */
  lemma ProcessPageLinks(n: PageNode, contextId: string, kind: AliasKind, template: string,
                         createNodeId: string -> string)
    ensures var acts := ProcessPage(n, contextId, kind, template, createNodeId);
      && |acts| == 2 && acts[0].CreateNode? && acts[1].CreatePage?
      && acts[1].page.path == acts[0].node.value == AliasFor(kind, n.title)
      && Json.ParseAlias(acts[0].node.content) == Some(Json.AliasData(acts[0].node.id, acts[1].page.path))
      && acts[1].page.contextId == contextId
      && acts[1].page.component == template
      && (forall t, tags, body, desc :: t in AliasedTypes ==>
            AliasField(acts[0].node.id) in OnCreateNode(SourceNode(t, n.drupalId, tags, body, desc), createNodeId))
  {
    var acts := ProcessPage(n, contextId, kind, template, createNodeId);
    forall t, tags, body, desc | t in AliasedTypes
      ensures AliasField(acts[0].node.id) in OnCreateNode(SourceNode(t, n.drupalId, tags, body, desc), createNodeId)
    {
      OnCreateNodeFields(SourceNode(t, n.drupalId, tags, body, desc), createNodeId);
    }
  }

  // ---------------------------------------------------------------------------
  // createPages
  // ---------------------------------------------------------------------------

  const PageTemplate: string := "./src/templates/basic-page.js"
  const ArticleTemplate: string := "./src/templates/article-page.js"
  const ProgramTemplate: string := "./src/templates/program-page.js"
  const LandingTemplate: string := "./src/templates/landing-page.js"

  /** A taxonomy term reference. */
  datatype Term = Term(id: string, name: string)

  /** A program and its acronym term; the acronym may be missing. */
  datatype ProgramNode = ProgramNode(node: PageNode, acronym: Option<Term>)

  /** The four result lists of the page query; `None` for a list the result does not hold. */
  datatype QueryData = QueryData(
    pages: Option<seq<PageNode>>,
    articles: Option<seq<PageNode>>,
    programs: Option<seq<ProgramNode>>,
    landingPages: Option<seq<PageNode>>)

  datatype QueryResult = QueryResult(hasErrors: bool, data: Option<QueryData>)

  /** The build goes on with the listed actions, or stops. */
  datatype Build = Built(actions: seq<Action>) | Failed(message: string)

  const QueryErrorMessage: string := "ERROR: Loading \"createPages\" query"
  const MissingAcronymMessage: string := "TypeError: field_program_acronym is null"

  /** The actions of a `forEach` whose body emits `f(x)` for each element, in order. */
  function FlatMap<A, B>(xs: seq<A>, f: A -> seq<B>): seq<B>
    decreases |xs|
  {
    if xs == [] then [] else f(xs[0]) + FlatMap(xs[1..], f)
  }

  /** With two actions per element, the actions of element `i` sit at `2 * i` and `2 * i + 1`. */
  lemma {:induction false} FlatMapPairs<A, B>(xs: seq<A>, f: A -> seq<B>)
    requires forall x :: |f(x)| == 2
    ensures |FlatMap(xs, f)| == 2 * |xs|
    ensures forall i :: 0 <= i < |xs| ==> FlatMap(xs, f)[2 * i..2 * i + 2] == f(xs[i])
    decreases |xs|
  {
    if xs != [] {
      FlatMapPairs(xs[1..], f);
      var head, tail := f(xs[0]), FlatMap(xs[1..], f);
      forall i | 1 <= i < |xs|
        ensures (head + tail)[2 * i..2 * i + 2] == f(xs[i])
      {
        assert (head + tail)[2 * i..2 * i + 2] == tail[2 * (i - 1)..2 * (i - 1) + 2];
      }
      assert (head + tail)[0..2] == head;
    }
  }

  /** `nodes.forEach(node => processPage(node, node.id, ...))`. */
  function ProcessAll(nodes: seq<PageNode>, kind: AliasKind, template: string,
                      createNodeId: string -> string): seq<Action>
  {
    FlatMap(nodes, (n: PageNode) => ProcessPage(n, n.id, kind, template, createNodeId))
  }

  /** `processPage` for a program: its page query gets the acronym term's id. */
  function ProcessProgram(p: ProgramNode, createNodeId: string -> string): seq<Action> {
    match p.acronym
    case Some(term) => ProcessPage(p.node, term.id, ProgramAlias, ProgramTemplate, createNodeId)
    case None => []
  }

  /**
   * The program loop. Reading the acronym's id of a program without an
   * acronym throws, which rejects `createPages` and fails the build.
   */
  function ProcessPrograms(programs: seq<ProgramNode>, createNodeId: string -> string): Option<seq<Action>> {
    if forall p :: p in programs ==> p.acronym.Some?
    then Some(FlatMap(programs, (p: ProgramNode) => ProcessProgram(p, createNodeId)))
    else None
  }

  function ListOr<T>(o: Option<seq<T>>): seq<T> {
    match o case Some(s) => s case None => []
  }

  /** `createPages`: pages, then articles, then programs, then landing pages. */
  function CreatePages(result: QueryResult, createNodeId: string -> string): Build {
    if result.hasErrors then Failed(QueryErrorMessage)
    else match result.data
      case None => Built([])
      case Some(d) =>
        match ProcessPrograms(ListOr(d.programs), createNodeId)
        case None => Failed(MissingAcronymMessage)
        case Some(programActions) =>
          Built(ProcessAll(ListOr(d.pages), PageAlias, PageTemplate, createNodeId)
            + ProcessAll(ListOr(d.articles), ArticleAlias, ArticleTemplate, createNodeId)
            + programActions
            + ProcessAll(ListOr(d.landingPages), LandingAlias, LandingTemplate, createNodeId))
  }

  // ---------------------------------------------------------------------------
  // Properties of createPages
  // ---------------------------------------------------------------------------

  /**
   * Actions come in pairs: an alias node, then a page at the alias that
   * node stores.
   */
  predicate Paired(acts: seq<Action>) {
    && |acts| % 2 == 0
    && forall i :: 0 <= i < |acts| / 2 ==>
         && acts[2 * i].CreateNode? && acts[2 * i + 1].CreatePage?
         && acts[2 * i + 1].page.path == acts[2 * i].node.value
         && acts[2 * i].node.id == acts[2 * i].node.key
  }

  lemma PairedAppend(a: seq<Action>, b: seq<Action>)
    requires Paired(a) && Paired(b)
    ensures Paired(a + b)
  {
    var ab := a + b;
    forall i | 0 <= i < |ab| / 2
      ensures ab[2 * i].CreateNode? && ab[2 * i + 1].CreatePage?
      ensures ab[2 * i + 1].page.path == ab[2 * i].node.value && ab[2 * i].node.id == ab[2 * i].node.key
    {
      if 2 * i < |a| {
        assert ab[2 * i] == a[2 * i] && ab[2 * i + 1] == a[2 * i + 1];
      } else {
        var j := i - |a| / 2;
        assert ab[2 * i] == b[2 * j] && ab[2 * i + 1] == b[2 * j + 1];
      }
    }
  }

  /** The pair `processPage` emits: the alias node, then the page at the alias it stores. */
  lemma ProcessPageShape(n: PageNode, contextId: string, kind: AliasKind, template: string,
                         createNodeId: string -> string, acts: seq<Action>)
    requires acts == ProcessPage(n, contextId, kind, template, createNodeId)
    ensures |acts| == 2 && acts[0].CreateNode? && acts[1].CreatePage?
    ensures acts[1].page.path == acts[0].node.value && acts[0].node.id == acts[0].node.key
    ensures acts[1].page == Page(AliasFor(kind, n.title), template, contextId)
    ensures acts[0].node == CreateNodeAlias(n.drupalId, AliasFor(kind, n.title), createNodeId)
  {
  }

  /** A flat map of `processPage` pairs is paired, and the page of element `i` is at `2 * i + 1`. */
  lemma FlatMapPaired<A>(xs: seq<A>, f: A -> seq<Action>)
    requires forall x :: |f(x)| == 2
    requires forall x :: f(x)[0].CreateNode? && f(x)[1].CreatePage?
    requires forall x :: f(x)[1].page.path == f(x)[0].node.value && f(x)[0].node.id == f(x)[0].node.key
    ensures Paired(FlatMap(xs, f)) && |FlatMap(xs, f)| == 2 * |xs|
    ensures forall i :: 0 <= i < |xs| ==> FlatMap(xs, f)[2 * i] == f(xs[i])[0]
    ensures forall i :: 0 <= i < |xs| ==> FlatMap(xs, f)[2 * i + 1] == f(xs[i])[1]
  {
    var acts := FlatMap(xs, f);
    FlatMapPairs(xs, f);
    forall i | 0 <= i < |xs|
      ensures acts[2 * i] == f(xs[i])[0] && acts[2 * i + 1] == f(xs[i])[1]
    {
      assert acts[2 * i..2 * i + 2] == f(xs[i]);
    }
  }

  /** One alias node and one page per node, paired, in input order; the page query gets the node's id. */
  lemma ProcessAllPaired(nodes: seq<PageNode>, kind: AliasKind, template: string,
                         createNodeId: string -> string)
    ensures var acts := ProcessAll(nodes, kind, template, createNodeId);
      && Paired(acts) && |acts| == 2 * |nodes|
      && (forall i :: 0 <= i < |nodes| ==>
           acts[2 * i + 1].page == Page(AliasFor(kind, nodes[i].title), template, nodes[i].id))
      && (forall i :: 0 <= i < |nodes| ==>
           acts[2 * i].node == CreateNodeAlias(nodes[i].drupalId, AliasFor(kind, nodes[i].title), createNodeId))
  {
    var f := (n: PageNode) => ProcessPage(n, n.id, kind, template, createNodeId);
    forall n: PageNode
      ensures |f(n)| == 2 && f(n)[0].CreateNode? && f(n)[1].CreatePage?
      ensures f(n)[1].page.path == f(n)[0].node.value && f(n)[0].node.id == f(n)[0].node.key
      ensures f(n)[1].page == Page(AliasFor(kind, n.title), template, n.id)
      ensures f(n)[0].node == CreateNodeAlias(n.drupalId, AliasFor(kind, n.title), createNodeId)
    {
      ProcessPageShape(n, n.id, kind, template, createNodeId, f(n));
    }
    var acts := FlatMap(nodes, f);
    FlatMapPaired(nodes, f);
    forall i | 0 <= i < |nodes|
      ensures acts[2 * i + 1].page == Page(AliasFor(kind, nodes[i].title), template, nodes[i].id)
      ensures acts[2 * i].node == CreateNodeAlias(nodes[i].drupalId, AliasFor(kind, nodes[i].title), createNodeId)
    {
      assert acts[2 * i] == f(nodes[i])[0] && acts[2 * i + 1] == f(nodes[i])[1];
    }
  }

  /** Different Drupal ids give different alias keys. */
  lemma AliasKeyInjective(a: string, b: string)
    ensures AliasKey(a) == AliasKey(b) ==> a == b
  {
    if AliasKey(a) == AliasKey(b) {
      assert a == AliasKey(a)[6..] && b == AliasKey(b)[6..];
    }
  }

  /**
   * With an injective `createNodeId`, nodes with distinct Drupal ids get
   * alias nodes with distinct ids, so no alias node replaces another.
   */
  lemma ProcessAllDistinctIds(nodes: seq<PageNode>, kind: AliasKind, template: string,
                              createNodeId: string -> string)
    requires forall a, b :: createNodeId(a) == createNodeId(b) ==> a == b
    requires forall i, j :: 0 <= i < j < |nodes| ==> nodes[i].drupalId != nodes[j].drupalId
    ensures var acts := ProcessAll(nodes, kind, template, createNodeId);
      |acts| == 2 * |nodes|
      && forall i, j :: 0 <= i < j < |nodes| ==>
           acts[2 * i].CreateNode? && acts[2 * j].CreateNode? && acts[2 * i].node.id != acts[2 * j].node.id
  {
    var acts := ProcessAll(nodes, kind, template, createNodeId);
    ProcessAllPaired(nodes, kind, template, createNodeId);
    forall i, j | 0 <= i < j < |nodes|
      ensures acts[2 * i].CreateNode? && acts[2 * j].CreateNode? && acts[2 * i].node.id != acts[2 * j].node.id
    {
      AliasKeyInjective(nodes[i].drupalId, nodes[j].drupalId);
    }
  }

  /**
   * The program loop succeeds exactly when every program has an acronym; it
   * then pairs up like the other content types, and each page query gets the
   * acronym term's id rather than the program's own id.
   */
  lemma ProcessProgramsPaired(programs: seq<ProgramNode>, createNodeId: string -> string)
    ensures ProcessPrograms(programs, createNodeId).Some? <==> forall p :: p in programs ==> p.acronym.Some?
    ensures ProcessPrograms(programs, createNodeId).Some? ==>
      var acts := ProcessPrograms(programs, createNodeId).value;
      && Paired(acts) && |acts| == 2 * |programs|
      && forall i :: 0 <= i < |programs| ==>
           programs[i].acronym.Some?
           && acts[2 * i + 1].page
              == Page(AliasFor(ProgramAlias, programs[i].node.title), ProgramTemplate, programs[i].acronym.value.id)
  {
    if forall p :: p in programs ==> p.acronym.Some? {
      // Programs without an acronym never reach the loop body here, so the
      // body may treat them as a fixed pair.
      var f := (p: ProgramNode) =>
        ProcessPage(p.node, if p.acronym.Some? then p.acronym.value.id else "", ProgramAlias, ProgramTemplate, createNodeId);
      forall p: ProgramNode
        ensures |f(p)| == 2 && f(p)[0].CreateNode? && f(p)[1].CreatePage?
        ensures f(p)[1].page.path == f(p)[0].node.value && f(p)[0].node.id == f(p)[0].node.key
      {
        ProcessPageShape(p.node, if p.acronym.Some? then p.acronym.value.id else "", ProgramAlias, ProgramTemplate, createNodeId, f(p));
      }
      FlatMapAgree(programs, (p: ProgramNode) => ProcessProgram(p, createNodeId), f);
      FlatMapPaired(programs, f);
      forall i | 0 <= i < |programs|
        ensures f(programs[i])[1].page
          == Page(AliasFor(ProgramAlias, programs[i].node.title), ProgramTemplate, programs[i].acronym.value.id)
      {
        assert programs[i] in programs;
        ProcessPageShape(programs[i].node, programs[i].acronym.value.id, ProgramAlias, ProgramTemplate, createNodeId, f(programs[i]));
      }
    }
  }

  /** Two loop bodies that agree on the elements give the same actions. */
  lemma {:induction false} FlatMapAgree<A, B>(xs: seq<A>, f: A -> seq<B>, g: A -> seq<B>)
    requires forall x :: x in xs ==> f(x) == g(x)
    ensures FlatMap(xs, f) == FlatMap(xs, g)
    decreases |xs|
  {
    if xs != [] {
      assert xs[0] in xs;
      assert forall x :: x in xs[1..] ==> x in xs;
      FlatMapAgree(xs[1..], f, g);
    }
  }

  /**
   * The build fails exactly when the query reported errors or a program has
   * no acronym; otherwise every node gets an alias node followed by its page.
   */
  lemma CreatePagesOutcome(result: QueryResult, createNodeId: string -> string)
    ensures CreatePages(result, createNodeId).Failed? <==>
      result.hasErrors
      || (result.data.Some? && exists p :: p in ListOr(result.data.value.programs) && p.acronym.None?)
    ensures CreatePages(result, createNodeId).Built? ==>
      var acts := CreatePages(result, createNodeId).actions;
      && Paired(acts)
      && |acts| == 2 * (if result.data.None? then 0 else
           var d := result.data.value;
           |ListOr(d.pages)| + |ListOr(d.articles)| + |ListOr(d.programs)| + |ListOr(d.landingPages)|)
    ensures !result.hasErrors && result.data.None? ==> CreatePages(result, createNodeId) == Built([])
    ensures CreatePages(result, createNodeId).Built? && result.data.Some? ==>
      var d := result.data.value;
      CreatePages(result, createNodeId).actions
        == ProcessAll(ListOr(d.pages), PageAlias, PageTemplate, createNodeId)
         + ProcessAll(ListOr(d.articles), ArticleAlias, ArticleTemplate, createNodeId)
         + FlatMap(ListOr(d.programs), (p: ProgramNode) => ProcessProgram(p, createNodeId))
         + ProcessAll(ListOr(d.landingPages), LandingAlias, LandingTemplate, createNodeId)
  {
    if !result.hasErrors && result.data.Some? {
      var d := result.data.value;
      ProcessProgramsPaired(ListOr(d.programs), createNodeId);
      if ProcessPrograms(ListOr(d.programs), createNodeId).Some? {
        var progs := ProcessPrograms(ListOr(d.programs), createNodeId).value;
        var a := ProcessAll(ListOr(d.pages), PageAlias, PageTemplate, createNodeId);
        var b := ProcessAll(ListOr(d.articles), ArticleAlias, ArticleTemplate, createNodeId);
        var c := ProcessAll(ListOr(d.landingPages), LandingAlias, LandingTemplate, createNodeId);
        ProcessAllPaired(ListOr(d.pages), PageAlias, PageTemplate, createNodeId);
        ProcessAllPaired(ListOr(d.articles), ArticleAlias, ArticleTemplate, createNodeId);
        ProcessAllPaired(ListOr(d.landingPages), LandingAlias, LandingTemplate, createNodeId);
        PairedAppend(a, b);
        PairedAppend(a + b, progs);
        PairedAppend(a + b + progs, c);
      }
    }
  }
}
