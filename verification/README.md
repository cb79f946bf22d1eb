# gus: a Dafny model of the site's path, page and view-model logic

The site is a Gatsby build over a Drupal content source (with a WordPress
events feed). Around the framework glue sit a handful of small, pure
functions that decide what the site emits. This project models them and
proves their properties:

- `gatsby-node.js`:
  - the `slugify` pipeline and the `create*Alias` path builders (module `Slug`, module `GatsbyNode`);
  - the fields `onCreateNode` derives for a node;
  - `processPage` / `createNodeAlias`, which tie one alias to both a page and a `PathAlias` node whose content is the JSON text of `{key, value}` (module `Json` models that serialisation and a reader for it);
  - `createPages`, which runs `processPage` over the four query result lists.
- `src/templates/program-page.js`: the variant heading (dedupe, then an English list with an Oxford comma), the variant count cards, the program-information tab assembly, the last-modified date extraction and the hero-image fallback (module `ProgramPage`).
- `src/components/events.js`: the category rules that select WordPress events for a Drupal events block (module `Events`).
- `src/components/button.js`: style and colour classes, CMS link resolution, title and class names (module `Button`).
- `src/components/shared/modalVideo.js`: YouTube/Vimeo classification, video id extraction and element ids (module `ModalVideo`).

Module `Strings` models the JavaScript string primitives these use:
`indexOf`, `includes`, `replace` with a string pattern, `substr` and `split`.
Module `Wrappers` holds `Option`.

Conventions:

- A value that may be `null` or `undefined` is an `Option`.
- Every value the source passes through `contentExists` is an `Option`. `None` stands for "`contentExists` is false".
- A button's link URI of `None` stands for `null` or `undefined`. The source then throws at `uri.includes("http")`, and the model renders nothing.
- The events selection is a list. An empty list plays the part of `contentExists([])`, which the model takes to be false, so nothing is rendered.
- Gatsby's `createNodeId` is a function parameter `string -> string`. Its injectivity is a hypothesis only where a property needs it.
- Side-effecting Gatsby actions are returned as data. `createNode` and `createPage` become `Action` values, and `createNodeField` becomes `NodeField` values.
- A build that the source aborts is `Failed`. This covers `panicOnBuild`, and a `TypeError` thrown inside `createPages`.

## Model

| member | source | states |
|---|---|---|
| Slug.Slugify | gatsby-node.js:683-696 | every slug is `[a-z0-9-]*`, has no hyphen at either end and no doubled hyphen |
| Slug.SlugifyIdempotent | gatsby-node.js:688-695 | slugifying a slug changes nothing |
| Slug.SlugifyFixesSlugs | gatsby-node.js:688-695 | every string of slug shape is its own slug, because each of the seven steps leaves it unchanged |
| Slug.Normalize | gatsby-node.js:688-693 | after lower-casing, whitespace, table folding, `&` expansion, stripping and collapsing, only `[a-z0-9-]` characters remain |
| Slug.TrimHyphens | gatsby-node.js:694-695 | trimming leaves no hyphen at either end, adds no character, keeps a string free of doubled hyphens, and changes nothing when neither end is a hyphen |
| Slug.ToLower | gatsby-node.js:688 | lower-casing leaves no ASCII capital, maps `A`-`Z` 32 code points down, and keeps every other ASCII character |
| Slug.LowerFacts | gatsby-node.js:688 | `toLowerCase` keeps the length, leaves no ASCII capital, and changes nothing on ASCII text without capitals |
| Slug.SkipSpacesFacts | gatsby-node.js:689 | skipping a whitespace run leaves no leading white space and no new character |
| Slug.ReplaceWhitespaceFacts | gatsby-node.js:689 | after `\s+` → `-` no white space is left, every other character comes from the input, and text without white space is unchanged |
| Slug.FoldFromDistinct | gatsby-node.js:684-685 | the two tables have 79 characters each, and no character occurs twice in the first, so `a.indexOf(c)` finds `c`'s own position |
| Slug.FoldTable | gatsby-node.js:684-685 | no table character is a slug character, and every replacement is a lower-case letter or `-` |
| Slug.UnderscoreFolded | gatsby-node.js:684 | `_` is one of the table characters, so it becomes `-` before word characters are kept |
| Slug.FoldCharPositional | gatsby-node.js:684-690 | a character at index i of table `a` becomes the character at index i of table `b` |
| Slug.FoldCharOutside | gatsby-node.js:686-690 | a character outside table `a` is not matched and stays as it is |
| Slug.FoldCharShape | gatsby-node.js:684-690 | folding yields the character itself, a lower-case letter or `-`, never `_`, and leaves slug characters alone |
| Slug.FoldSpecialsFacts | gatsby-node.js:690 | folding keeps the length, yields only input characters other than `_`, lower-case letters or `-`, and leaves slug text unchanged |
| Slug.ReplaceAmpersandsFacts | gatsby-node.js:691 | after `&` → `-and-` no `&` is left, new characters are letters or `-`, and text without `&` is unchanged |
| Slug.StripNonWordFacts | gatsby-node.js:692 | a character survives stripping exactly when it is in the input and is `\w` or `-`; text of such characters is unchanged |
| Slug.CollapseHyphensFacts | gatsby-node.js:693 | collapsing leaves no doubled hyphen, keeps the first and last characters, adds none, and changes nothing when there is no doubled hyphen |
| Slug.TrimStartFacts | gatsby-node.js:694 | trimming the start yields a suffix of the input that starts with no hyphen, and is the input itself when that starts with no hyphen |
| Slug.TrimEndFacts | gatsby-node.js:695 | trimming the end yields a prefix of the input that ends with no hyphen, and is the input itself when that ends with no hyphen |
| Slug.PunctuationFolds | gatsby-node.js:684-690 | `·`, `/`, `_`, `,`, `:` and `;` each become `-` |
| Slug.LowerAppend | gatsby-node.js:688 | lower-casing works character by character, so it distributes over concatenation |
| Slug.ReplaceWhitespaceKeepsPrefix | gatsby-node.js:689 | text without white space in front of a string passes through the `\s+` → `-` step unchanged |
| Slug.MapCharsAppend | gatsby-node.js:690 | the per-character table fold distributes over concatenation |
| Slug.ReplaceAmpersandsAppend | gatsby-node.js:691 | `&` → `-and-` distributes over concatenation |
| Slug.CollapseAppend | gatsby-node.js:693 | collapsing hyphen runs distributes over a concatenation whose join is not two hyphens |
| Slug.SlugifyAmpersandJoin | gatsby-node.js:683-696 | two texts whose lower-case forms are non-empty slugs, joined by ` & `, slugify to those lower-case forms joined by `-and-` |
| Slug.SlugifyAmpersand | gatsby-node.js:683-696 | `A & B` slugifies to `a-and-b` |
| Slug.SlugifyCommaBelowCapital | gatsby-node.js:684-696 | `Ș` (U+0218) lower-cases to `ș`, which the table folds to `s`, so its slug is `s` |
| GatsbyNode.PrefixesAreSlugs | gatsby-node.js:667-680 | the prefixes `news`, `programs` and `topics` are slugs and pass through `slugify` unchanged |
| GatsbyNode.AliasSegments | gatsby-node.js:646-654 | a basic-page alias is the single path segment `slugify(title)`; the other families are their prefix segment followed by `slugify(title)` |
| GatsbyNode.PlainPathSegments | gatsby-node.js:647 | `/` followed by a slug reads back as that one segment |
| GatsbyNode.PrefixedPathSegments | gatsby-node.js:650 | `/p/s` with slugs `p` and `s` reads back as the two segments `p`, `s` |
| GatsbyNode.AliasCollision | gatsby-node.js:646-680 | two aliases are equal exactly when they belong to the same family and the titles have the same slug |
| GatsbyNode.OnCreateNodeFields | gatsby-node.js:427-480 | a node gets `tags` exactly when it has one of the nine listed types. It gets an `alias` link and `content` exactly when it has one of the four page types. Each field is added at most once, and the alias link is `createNodeId("alias-" + drupal_id)` |
| GatsbyNode.SearchContentField | gatsby-node.js:444-480 | a node gets a `content` field exactly when it is one of the four page types. Its text is the processed body, else the processed description, else the empty string |
| GatsbyNode.AliasKeyInjective | gatsby-node.js:453 | distinct Drupal ids give distinct `alias-` keys |
| GatsbyNode.CreateNodeAlias | gatsby-node.js:622-643 | the alias node's id is its key, and its JSON content reads back as exactly its key and value |
| GatsbyNode.ProcessPageLinks | gatsby-node.js:609-620 | `processPage` emits the alias node and then the page. The page path is the stored alias, which the node's content also records. The node id is the one `onCreateNode` links the source node to. The page gets the template and the context id |
| GatsbyNode.FlatMapPaired | gatsby-node.js:558-565 | a `forEach` that emits a node/page pair per element emits, in order, one such pair per element |
| GatsbyNode.ProcessAllPaired | gatsby-node.js:556-579 | each page, article and landing-page list yields one alias node and one page per node, in order. Each page lies at the node's alias and gets `node.id` as context |
| GatsbyNode.ProcessAllDistinctIds | gatsby-node.js:623 | when `createNodeId` is injective and the Drupal ids are distinct, no two alias nodes of one list share an id |
| GatsbyNode.ProcessProgramsPaired | gatsby-node.js:582-592 | the program list succeeds exactly when every program has an acronym. Each program page gets the acronym term id as context |
| GatsbyNode.CreatePagesOutcome | gatsby-node.js:546-607 | the build fails exactly when the query reports errors or some program lacks an acronym. Without data it emits nothing. Otherwise it emits the `processPage` pairs of the pages, then the articles, then the programs, then the landing pages, one node/page pair per queried node |
| Json.EscapeChar | gatsby-node.js:628 | `JSON.stringify` escapes exactly `"`, `\` and the control characters, and an escape never starts with a quote |
| Json.HexRoundTrip | gatsby-node.js:628 | a hexadecimal digit of a `\u00XX` escape reads back as its value |
| Json.ReadEscapedString | gatsby-node.js:628 | an escaped string followed by its closing quote reads back as the original string and the text after the quote |
| Json.AliasRoundTrip | gatsby-node.js:624-628 | the JSON text of `{key, value}` parses back to the same key and value |
| Json.StringifyAliasInjective | gatsby-node.js:628 | distinct alias records have distinct JSON texts |
| ProgramPage.VariantLabelsMembership | src/templates/program-page.js:236-240 | a label is collected exactly when some entry is a `paragraph__program_variants` with a non-null variant type of that name |
| ProgramPage.DedupeMembers | src/templates/program-page.js:242-243 | `[...new Set(labels)]` holds exactly the labels of the input |
| ProgramPage.DedupeDistinct | src/templates/program-page.js:242-243 | `[...new Set(labels)]` holds no label twice |
| ProgramPage.DedupeOrder | src/templates/program-page.js:242-243 | `[...new Set(labels)]` lists the labels in order of first occurrence |
| ProgramPage.DedupeKeepsDistinct | src/templates/program-page.js:242-243 | a list without repeats passes through the set unchanged |
| ProgramPage.JoinLabels | src/templates/program-page.js:244-257 | the heading loop builds the English list of the labels |
| ProgramPage.EnglishListSmall | src/templates/program-page.js:246-257 | 0 labels give `""`, 1 gives `L1`, 2 give `L1 and L2`, 3 give `L1, L2, and L3` |
| ProgramPage.PrepareVariantHeading | src/templates/program-page.js:232-260 | the variant heading is the English list of the deduplicated qualifying labels |
| ProgramPage.BucketCountsSum | src/templates/program-page.js:62-77 | the four bucket counts add up to the number of qualifying entries, so each entry lands in exactly one bucket |
| ProgramPage.BucketOf | src/templates/program-page.js:64-76 | a name other than `Associate Diplomas`, `Certificates` and `Minors` is counted as a major, and those three names are not |
| ProgramPage.BucketCaptions | src/templates/program-page.js:64-103 | each recognised name is counted under the card whose caption ends with it (`Associate Diplomas`, `Optional Certificates`, `Specialized Minors`), and no two recognised names share a card |
| ProgramPage.CountBuckets | src/templates/program-page.js:61-78 | the counting loop computes, for each bucket, how many qualifying entries `BucketOf` sends there; `BucketOf` sends every unrecognised name to the majors |
| ProgramPage.NonEmptyCardsFacts | src/templates/program-page.js:80-103 | a card is kept exactly when its count is positive, and the total count is unchanged |
| ProgramPage.NonEmptyCardsOrder | src/templates/program-page.js:79-104 | dropping empty cards keeps the card order |
| ProgramPage.CandidatesFacts | src/templates/program-page.js:79-104 | the four candidate cards carry the bucket counts in the order majors, minors, associate diplomas, certificates, and their total is the number of qualifying entries |
| ProgramPage.CountProgramVariantsCards | src/templates/program-page.js:54-107 | the result is null exactly when the variant data is absent or empty. Otherwise a bucket's card is shown exactly when its count is positive, in bucket order, and the counts total the qualifying entries |
| ProgramPage.TabIf | src/templates/program-page.js:118 | a tab entry is listed exactly when its guard holds |
| ProgramPage.IncludeTab | src/templates/program-page.js:117-137 | a tab block appends one tab, active exactly when it is the first, and keyed one past the previous count. When its guard fails it appends nothing. It keeps the `activeValue`/`activeTabExists`/`key` bookkeeping consistent |
| ProgramPage.TabsMatchStep | src/templates/program-page.js:139-204 | each further tab block keeps tab i matched to included entry i |
| ProgramPage.RenderProgramInfo | src/templates/program-page.js:109-220 | the result is null exactly when no tab is included. Otherwise the tabs are the included ones in the order courses, variants, careers, employers, keyed 1..n, with only the first active |
| ProgramPage.OneActiveTab | src/templates/program-page.js:110-127 | exactly one tab, the first, is active, and keys run 1..n |
| ProgramPage.RetrieveLastModifiedDates | src/templates/program-page.js:222-230 | the `changed` values in input order, with the input's length, and none when the input is absent |
| ProgramPage.HeroImage | src/templates/program-page.js:282 | the hero image is the non-empty image list, else the non-empty tagged list, else null |
| Events.FindMatches | src/components/events.js:7-16 | the nested loops report a match exactly when some Drupal category shares its name with some WordPress category |
| Events.SharesNameSymmetric | src/components/events.js:7-16 | whether two category lists share a name does not depend on their order |
| Events.SelectEvents | src/components/events.js:25-37 | the selection loops keep, in order, the events whose categories equal the block's (match-all) or share a name with them (any) |
| Events.KeptMembers | src/components/events.js:25-37 | an event is selected exactly when it is in the feed and the block's rule accepts it |
| Events.KeptIsSubsequence | src/components/events.js:26-36 | the selection is an order-preserving subsequence of the feed |
| Events.KeptLength | src/components/events.js:26-36 | the selection is never longer than the feed |
| Events.GenerateEvents | src/components/events.js:18-66 | nothing is rendered exactly when no event is accepted. Otherwise the block's key is kept, the heading is the block title or `Upcoming Events`, and the cards are exactly the first four accepted events in feed order, or all of them when there are fewer |
| Button.ButtonStyle | src/components/button.js:10-27 | every style label yields one of the six button classes, and an unknown label yields `btn-primary` |
| Button.ButtonStyleInjective | src/components/button.js:10-27 | the six labels yield six different classes |
| Button.ButtonStyleOnto | src/components/button.js:10-27 | each of the six classes is produced by some label |
| Button.ButtonStyleOutline | src/components/button.js:10-27 | a label holds `(Outline)` exactly when its class holds `outline` |
| Button.ButtonStyleColourWord | src/components/button.js:10-27 | the plain and the outline label of `Primary`, `Secondary` and `Info` both give a class that ends with that word in lower case |
| Button.FontAwesomeIconColour | src/components/button.js:29-40 | a colour class is produced exactly for Yellow, Red and Darker Red |
| Button.DarkerRedClassMalformed | src/components/button.js:35-36 | the class written for Darker Red, `red-darker-icon)`, is not a well-formed class name |
| Button.IconColour | src/components/button.js:29-40 | a colour class is produced exactly for the three colour labels, and with the parenthesis dropped each one is a well-formed class name |
| Button.IconColourClasses | src/components/button.js:29-40 | with the parenthesis dropped, each colour label yields a well-formed class of its own |
| Button.AsWrittenColour | src/components/button.js:29-40 | the source's colour class is the corrected one for every label, except that Darker Red's carries a trailing `)` |
| Button.IconColourWords | src/components/button.js:29-40 | each colour class starts with the last word of its label in lower case (`yellow` for Yellow; `red` for Red and Darker Red) and ends with `-icon` |
| Button.IconColourDarker | src/components/button.js:29-40 | a label holds `Darker` exactly when its class holds `darker` |
| Button.ResolveLink | src/components/button.js:47-49 | a resolved link is `/`, a recorded alias or the URI itself. There is no link only for an absent URI, a `<nolink>` URI or an `entity:node/` URI whose node has no recorded alias. The markers are checked in the order `entity:node/`, `internal:/`, `<nolink>` |
| Button.EntityLink | src/components/button.js:47-48 | `entity:node/<id>` resolves to the alias recorded for `<id>`, and to no link when none is recorded |
| Button.InternalLink | src/components/button.js:48 | `internal:/…` resolves to `/` |
| Button.PlainLink | src/components/button.js:49 | a URI with none of the three markers passes through unchanged |
| Button.ButtonClassTokens | src/components/button.js:53-54 | split at spaces, the button classes are `btn`, the style class, then the caller's classes |
| Button.IconClassName | src/components/button.js:55-57 | the icon class list is empty exactly when no icon is set |
| Button.IconClassTokens | src/components/button.js:55-57 | split at spaces, the icon classes are the icon's, the caller's adjustment, `fa-fw`, then the colour class |
| Button.RenderButton | src/components/button.js:42-92 | a button is rendered exactly when the URI is present. It is an external anchor exactly when the URI contains `http`. Its target is `/`, a recorded alias or the URI. Split at spaces, its classes are `btn`, the style class, then the caller's classes. The icon classes are empty exactly without an icon, and otherwise end with `fa-fw` and the colour class. The text is the formatted title, else the link title, else `no title entered`. The click handler reports the goal's name and action, and exists exactly when both are present |
| ModalVideo.ClassifyVideo | src/components/shared/modalVideo.js:11 | a URL is a YouTube video exactly when `youtube` or `youtu.be` occurs in it, and a Vimeo video otherwise |
| ModalVideo.VideoId | src/components/shared/modalVideo.js:12 | a YouTube id is the last 11 characters, or for shorter URLs what `substr` with a negative start leaves. A Vimeo id is what follows the first 18 characters |
| ModalVideo.RenderModalVideo | src/components/shared/modalVideo.js:9-23 | nothing is rendered exactly for an empty URL. Otherwise the video id is a suffix of the URL, eleven characters long for a YouTube URL of at least that length. The modal is `modal-<id>` and the player is `player-<id>`. The player gets the classified type, and the title, transcript and captions as given |
| ModalVideo.ElementIds | src/components/shared/modalVideo.js:15-19 | the modal id `modal-<id>` and the player id `player-<id>` differ, and each gives back the video id |
| ModalVideo.YouTubeShareLink | src/components/shared/modalVideo.js:11-12 | a `…youtu.be/<id>` link with an 11-character id is YouTube, with that id |
| ModalVideo.ShareLinkModal | src/components/shared/modalVideo.js:9-21 | the modal for `…youtu.be/<id>` with an 11-character id is `modal-<id>`, with the YouTube player `player-<id>` |
| ModalVideo.VimeoLink | src/components/shared/modalVideo.js:12 | `https://vimeo.com/<id>` read as Vimeo yields `<id>` |
| Strings.IndexOf | gatsby-node.js:690 | `indexOf` finds the first occurrence, or reports that there is none |
| Strings.ReplaceFirst | src/components/button.js:48 | `replace` with a string pattern substitutes the first occurrence only, and nothing when there is none |
| Strings.Substr | src/components/shared/modalVideo.js:12 | `substr(start)` is a suffix; a negative start counts back from the end, clamped at the start of the string |
| Strings.SplitConcat | src/components/button.js:54 | splitting two strings joined by the separator gives the parts of each |

## Left out

- GraphQL schema text and every page or static query: they configure the framework's query engine.
- JSX layout, Helmet metadata and the presentational components: they contain only layout.
- The `graphql` call itself is left out because it is I/O. Its result is an input value.
- `fetch-menu.js` holds only a static query and has no code to model. The menu flattener is not part of this model.
- `createContentDigest` is left out: the digest is a hash computed by the framework, so the alias node carries no digest.
- `createNodeId` is a parameter: it is the framework's hashing.
- `sortLastModifiedDates`, date formatting with `moment` and the `lastModified` pick: their definitions are not part of this model.
- The YAML alias file is loaded by the bundler. It is a `map<string, string>` parameter.
- `contentExists` is not part of this model. Each value it guards is an `Option` (see the conventions above).
- Analytics calls, image plugins and `console.log` are side effects.
- Slug.ToLower: lowers ASCII, Latin-1, Latin Extended-A and the few other capitals whose lower-case form is in the fold table, and maps U+0130 to `i`. Other capitals are kept. JavaScript would lower them to letters that are not slug characters, and step 5 removes those, so the slug is the same. JavaScript's full Unicode case mapping is not modelled.
- Slug.Slugify: the example `"Café Program"` → `"cafe-program"` is not proved as a literal. Its steps are proved for all inputs: the positional fold (`Slug.FoldCharPositional`), white space to `-` (`Slug.ReplaceWhitespaceFacts`) and the slug shape (`Slug.Slugify`).
- GatsbyNode.SearchContent: `${x}` of an undefined `processed` field would give the text `undefined`. The model takes `processed` to be a string.
- GatsbyNode.CreatePages: `panicOnBuild` is modelled as a failed build. In `gatsby develop` it only logs and the loop goes on; that mode is not modelled.
- GatsbyNode.CreatePages: template paths are the relative paths given to `path.resolve`. The absolute path it prepends depends on the working directory.
- GatsbyNode.ProcessPrograms: a program without an acronym makes the source throw a `TypeError` part-way through the loop. The actions already issued are not modelled; the build is `Failed`.
- ProgramPage.PrepareVariantHeading: with absent variant data the source's `forEach` throws. The model takes the variant data as a list.
- ProgramPage.VariantLabels: `undefined` and `null` variant types are not distinguished (the source tests `!== null` only). Both count as absent.
- Events.GenerateEvents: the match-all rule compares `JSON.stringify` texts. The model assumes both category lists carry only `name`, so the texts are equal exactly when the lists are. It also assumes the block's category list is present: a `null` list makes `findMatches` throw.
- Events.GenerateEvents: the cards' month, day and times come from `moment` and are not modelled.
- Button.RenderButton: a missing style or colour relationship makes the source throw. The model takes both names as strings.
- Button.RenderButton: the rendered button uses the corrected colour class (see Findings), not the source's `red-darker-icon)`.
- Button.ResolveLink: treats every present URI string as content. The source first asks `contentExists`, whose definition is not part of this model. A present URI it rejects would give no link there.
- Button.IconClassName: builds the icon class list with the corrected colour class `red-darker-icon` (see Findings). For `Darker Red` it does not give the source's `red-darker-icon)`.
- Button.IconClassTokens: the last token is the corrected colour class (see Findings), not the source's `red-darker-icon)`.
- Strings.Substr: Dafny strings are sequences of code points, while JavaScript counts UTF-16 code units. Positions and lengths agree only for text inside the Basic Multilingual Plane.
- Strings.IndexOf: returns a code point index. JavaScript returns a UTF-16 code unit index, which is larger when astral characters come first.
- ModalVideo.VideoId: the 11 and 18 character offsets count code points. They match JavaScript's UTF-16 offsets for URLs without characters outside the Basic Multilingual Plane.
- Json: lone surrogate code points cannot occur in Dafny strings, so their `\uXXXX` escapes are not modelled.

## Findings

| source | as written | input that shows it | evidently intended | confidence | as-written member | corrected member |
|---|---|---|---|---|---|---|
| src/components/button.js:35-36 | `FontAwesomeIconColour('Darker Red')` returns `red-darker-icon)`, with a stray closing parenthesis | the colour label `Darker Red` | the class `red-darker-icon`, which a `.red-darker-icon` rule can select | medium (the stylesheet is not part of this model); not executed | Button.DarkerRedClassMalformed | Button.IconColour |
