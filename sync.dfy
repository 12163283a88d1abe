/** The synchronisation engine (`GhBlog`): the article index read from the
    repository, the branch head it writes against, and the three-step
    commit that stores every modified article together with a fresh index
    file.  Every remote call is a function in `Remote`, every foreign
    renderer a function in `Renderer`, and JSON a pair of functions in
    `Json`. */
module Sync {
  import opened Wrappers
  import opened Articles
  import Base64
  import EmbeddedSource

  type Sha = string

  const MarkerFile: string := "simple-pages.init"
  const IndexFile: string := "index.json"
  const ArticleTemplFile: string := "article.templ"
  const ArticlePrefix: string := "articles/"

  /** A file to store, and the tree entry it becomes. */
  datatype File = File(path: string, content: string)
  datatype TreeEntry = TreeEntry(path: string, mode: string, kind: string, content: string)

  /** The commit and tree a branch head points at. */
  datatype Head = Head(commit: Sha, tree: Sha)

  /** The repository API: the (decoded) content of a file at a commit, a
      new tree from deltas on a base tree, a new commit from a parent and a
      tree, and a branch-head move (`force` false is fast-forward only).
      `None` or `false` is a rejected request. */
  datatype Remote = Remote(
    getContents: (Sha, string) -> Option<string>,
    createTree: (seq<TreeEntry>, Sha) -> Option<Sha>,
    commit: (Sha, Sha, string) -> Option<Sha>,
    updateHead: (string, Sha, bool) -> bool)

  /** What the injected `marker` adds to an article, and the template
      renderer that turns the article into its HTML body. */
  datatype Marked = Marked(renderedBrief: string, rendered: string)
  datatype Renderer = Renderer(
    marker: Snapshot -> Marked,
    mustache: (string, Snapshot, Marked) -> string)

  /** `JSON.stringify` of a brief list and `JSON.parse` of an index file
      (`None` when the text is not JSON or not an array). */
  datatype Json = Json(
    stringify: seq<Brief> -> string,
    parse: string -> Option<seq<Props>>)

  datatype Error =
    | Unavailable                             // `_checkAvailable` ('Unavailable method')
    | ReadFailed(path: string)                // `getContents` rejected
    | InvalidIndexFile                        // the index file does not parse to an array
    | SourceError(cause: EmbeddedSource.ExtractError)
    | InvalidCharacter                        // `btoa` of a non-Latin-1 source
    | CreateTreeFailed
    | CommitFailed
    | UpdateHeadFailed

  datatype LoadError =
    | AuthenticationFailed
    | RepositoryOrBranchNotFound
    | Other(status: Option<int>)

  /** The error `load` reports for a failed branch lookup with HTTP status
      `status` (`None` when there is no response). */
  function ClassifyLoadError(status: Option<int>): (e: LoadError)
    ensures e == AuthenticationFailed <==> status == Some(401)
    ensures e == RepositoryOrBranchNotFound <==> status == Some(404)
    ensures e.Other? ==> e.status == status
  {
    if status == Some(401) then AuthenticationFailed
    else if status == Some(404) then RepositoryOrBranchNotFound
    else Other(status)
  }

  // ---------------------------------------------------------------------
  // Reading

  /** The index `reload` builds: the marker file must exist, the index file
      must exist and parse, and every parsed object becomes an `Article`. */
  function ReloadResult(remote: Remote, json: Json, head: Sha, now: string): (r: Result<seq<Article>, Error>)
    ensures remote.getContents(head, MarkerFile).None? ==> r == Failure(ReadFailed(MarkerFile))
    ensures remote.getContents(head, MarkerFile).Some? && remote.getContents(head, IndexFile).None? ==>
              r == Failure(ReadFailed(IndexFile))
    ensures r.Success? <==>
              && remote.getContents(head, MarkerFile).Some?
              && remote.getContents(head, IndexFile).Some?
              && json.parse(remote.getContents(head, IndexFile).value).Some?
    ensures r.Success? ==>
              var parsed := json.parse(remote.getContents(head, IndexFile).value).value;
              |r.value| == |parsed| &&
              forall k | 0 <= k < |parsed| :: r.value[k] == NewArticle(parsed[k], false, now)
  {
    if remote.getContents(head, MarkerFile).None? then Failure(ReadFailed(MarkerFile))
    else match remote.getContents(head, IndexFile)
      case None => Failure(ReadFailed(IndexFile))
      case Some(content) =>
        match json.parse(content)
        case None => Failure(InvalidIndexFile)
        case Some(parsed) => Success(seq(|parsed|, k requires 0 <= k < |parsed| => NewArticle(parsed[k], false, now)))
  }

  /** What `loadArticle` reads for the article called `name`: its file and
      the source embedded in it. */
  function LoadResult(remote: Remote, head: Sha, name: string): (r: Result<string, Error>)
    ensures remote.getContents(head, ArticlePrefix + name).None? ==> r == Failure(ReadFailed(ArticlePrefix + name))
    ensures remote.getContents(head, ArticlePrefix + name).Some? ==>
              var extracted := EmbeddedSource.Extract(remote.getContents(head, ArticlePrefix + name).value);
              (r.Success? <==> extracted.Success?) &&
              (r.Success? ==> r.value == extracted.value) &&
              (r.Failure? ==> r.error == SourceError(extracted.error))
  {
    match remote.getContents(head, ArticlePrefix + name)
    case None => Failure(ReadFailed(ArticlePrefix + name))
    case Some(html) =>
      match EmbeddedSource.Extract(html)
      case Failure(e) => Failure(SourceError(e))
      case Success(source) => Success(source)
  }

  // ---------------------------------------------------------------------
  // Rendering and the delta set

  /** The text `btoa` is given for a source: JavaScript turns an unloaded
      (`undefined`) source into the string "undefined". */
  function SourceText(source: Option<string>): string {
    match source
    case Some(s) => s
    case None => "undefined"
  }

  /** The stored file of an article: its source in the marker comment,
      then the template rendered over the article and the marker's output. */
  function ArticleHtml(s: Snapshot, templ: string, rnd: Renderer): (r: Result<string, Error>)
    ensures r.Success? <==> Base64.IsLatin1(SourceText(s.source))
    ensures r.Failure? ==> r.error == InvalidCharacter
  {
    match Base64.Btoa(SourceText(s.source))
    case None => Failure(InvalidCharacter)
    case Some(b64) => Success(EmbeddedSource.Embed(b64, rnd.mustache(templ, s, rnd.marker(s))))
  }

  /** Reading the source back from a stored file gives what was written. */
  lemma ArticleHtmlExtracts(s: Snapshot, templ: string, rnd: Renderer)
    requires ArticleHtml(s, templ, rnd).Success?
    ensures EmbeddedSource.Extract(ArticleHtml(s, templ, rnd).value) == Success(SourceText(s.source))
  {
    EmbeddedSource.ExtractEmbed(SourceText(s.source), rnd.mustache(templ, s, rnd.marker(s)));
  }

  /** The template `_renderArticleHtmls` uses: the cached one unless it is
      missing or empty (falsy), else the template file. */
  function UsedTemplate(cached: Option<string>, remote: Remote, head: Sha): Option<string> {
    if cached.Some? && cached.value != "" then cached
    else remote.getContents(head, ArticleTemplFile)
  }

  predicate EntryModified(e: Entry) {
    IsModified(e.base, e.lastVersion)
  }

  /** `allArticles.filter(c => c.modified)`. */
  function Modifieds(es: seq<Entry>): seq<Entry> {
    if es == [] then []
    else if EntryModified(es[0]) then [es[0]] + Modifieds(es[1..])
    else Modifieds(es[1..])
  }

  /** The filter keeps exactly the modified entries. */
  lemma {:induction false} ModifiedsMembers(es: seq<Entry>)
    ensures forall e | e in Modifieds(es) :: e in es && EntryModified(e)
    ensures forall e | e in es && EntryModified(e) :: e in Modifieds(es)
  {
    if es != [] {
      ModifiedsMembers(es[1..]);
      assert es == [es[0]] + es[1..];
    }
  }

  /** The filter keeps the input order: it distributes over concatenation. */
  lemma {:induction false} ModifiedsAppend(a: seq<Entry>, b: seq<Entry>)
    ensures Modifieds(a + b) == Modifieds(a) + Modifieds(b)
  {
    if a == [] {
      assert a + b == b;
    } else {
      assert (a + b)[1..] == a[1..] + b;
      ModifiedsAppend(a[1..], b);
    }
  }

  /** The rendered brief an entry carries after saving: the marker's for a
      modified entry, its own otherwise. */
  function SavedBrief(e: Entry, rnd: Renderer): Option<string> {
    if EntryModified(e) then Some(rnd.marker(e.base).renderedBrief) else e.renderedBrief
  }

  /** The content of the index file: the brief of every given article, in
      order, modified or not. */
  function IndexBriefs(es: seq<Entry>, rnd: Renderer): (r: seq<Brief>)
    ensures |r| == |es|
    ensures forall k | 0 <= k < |es| :: r[k] == BriefOf(es[k].base, SavedBrief(es[k], rnd))
  {
    seq(|es|, k requires 0 <= k < |es| => BriefOf(es[k].base, SavedBrief(es[k], rnd)))
  }

  /** The index after a successful save: `new Article(c, true)` takes the
      monitored fields, source included, and drops the rest; then
      `renderedBrief` is copied over. Every property is present, so the
      default time (here `""`) is never used. */
  function SavedIndex(es: seq<Entry>, rnd: Renderer): (r: seq<Article>)
    ensures |r| == |es|
    ensures forall k | 0 <= k < |es| :: r[k] == Article(es[k].base, SavedBrief(es[k], rnd))
  {
    seq(|es|, k requires 0 <= k < |es| =>
      NewArticle(PropsOf(Article(es[k].base, es[k].renderedBrief)), true, "").(renderedBrief := SavedBrief(es[k], rnd)))
  }

  /** One file `articles/<name>` per entry, in order; the first source that
      `btoa` rejects fails the whole list. */
  function ArticleFiles(mods: seq<Entry>, templ: string, rnd: Renderer): (r: Result<seq<File>, Error>)
    ensures r.Failure? ==> r.error == InvalidCharacter
    ensures r.Success? ==> |r.value| == |mods|
  {
    if mods == [] then Success([])
    else match ArticleHtml(mods[0].base, templ, rnd)
      case Failure(e) => Failure(e)
      case Success(html) =>
        match ArticleFiles(mods[1..], templ, rnd)
        case Failure(e) => Failure(e)
        case Success(rest) => Success([File(ArticlePrefix + mods[0].base.name, html)] + rest)
  }

  /** The list is built exactly when every source is Latin-1, and then
      holds, in order, the path and the stored file of every entry. */
  lemma ArticleFilesSpec(mods: seq<Entry>, templ: string, rnd: Renderer)
    ensures ArticleFiles(mods, templ, rnd).Success? <==>
              forall k | 0 <= k < |mods| :: Base64.IsLatin1(SourceText(mods[k].base.source))
    ensures var r := ArticleFiles(mods, templ, rnd);
            r.Success? ==> forall k | 0 <= k < |mods| ::
              && r.value[k].path == ArticlePrefix + mods[k].base.name
              && ArticleHtml(mods[k].base, templ, rnd) == Success(r.value[k].content)
  {
    ArticleFilesBuilt(mods, templ, rnd);
    ArticleFilesContent(mods, templ, rnd);
  }

  lemma {:induction false} ArticleFilesBuilt(mods: seq<Entry>, templ: string, rnd: Renderer)
    ensures ArticleFiles(mods, templ, rnd).Success? <==>
              forall k | 0 <= k < |mods| :: Base64.IsLatin1(SourceText(mods[k].base.source))
  {
    if mods != [] {
      ArticleFilesBuilt(mods[1..], templ, rnd);
      if (forall k | 0 <= k < |mods| :: Base64.IsLatin1(SourceText(mods[k].base.source))) {
        assert forall k | 0 <= k < |mods| - 1 :: mods[1..][k] == mods[k + 1];
      } else {
        var j :| 0 <= j < |mods| && !Base64.IsLatin1(SourceText(mods[j].base.source));
        if j > 0 {
          assert mods[1..][j - 1] == mods[j];
        }
      }
    }
  }

  lemma {:induction false} ArticleFilesContent(mods: seq<Entry>, templ: string, rnd: Renderer)
    ensures var r := ArticleFiles(mods, templ, rnd);
            r.Success? ==> forall k | 0 <= k < |mods| ::
              && r.value[k].path == ArticlePrefix + mods[k].base.name
              && ArticleHtml(mods[k].base, templ, rnd) == Success(r.value[k].content)
  {
    var r := ArticleFiles(mods, templ, rnd);
    if mods != [] && r.Success? {
      ArticleFilesContent(mods[1..], templ, rnd);
      forall k | 0 <= k < |mods|
        ensures && r.value[k].path == ArticlePrefix + mods[k].base.name
                && ArticleHtml(mods[k].base, templ, rnd) == Success(r.value[k].content)
      {
        if k > 0 {
          assert mods[1..][k - 1] == mods[k];
          assert r.value[k] == ArticleFiles(mods[1..], templ, rnd).value[k - 1];
        }
      }
    }
  }

  /** The delta set of `saveArticles`: the file of every modified article,
      in input order, then exactly one index file with every brief. */
  function DeltaSet(es: seq<Entry>, templ: string, rnd: Renderer, json: Json): (r: Result<seq<File>, Error>)
    ensures r.Success? <==> ArticleFiles(Modifieds(es), templ, rnd).Success?
    ensures r.Success? ==>
              && |r.value| == |Modifieds(es)| + 1
              && r.value[..|Modifieds(es)|] == ArticleFiles(Modifieds(es), templ, rnd).value
              && r.value[|Modifieds(es)|] == File(IndexFile, json.stringify(IndexBriefs(es, rnd)))
  {
    match ArticleFiles(Modifieds(es), templ, rnd)
    case Failure(e) => Failure(e)
    case Success(files) => Success(files + [File(IndexFile, json.stringify(IndexBriefs(es, rnd)))])
  }

  /** Every article file of a delta set gives back the source of its
      article, and the index file holds the brief of every entry. */
  lemma DeltaSetContents(es: seq<Entry>, templ: string, rnd: Renderer, json: Json, k: nat)
    requires DeltaSet(es, templ, rnd, json).Success?
    requires k < |Modifieds(es)|
    ensures var f := DeltaSet(es, templ, rnd, json).value[k];
            var e := Modifieds(es)[k];
            && e in es && EntryModified(e)
            && f.path == ArticlePrefix + e.base.name
            && EmbeddedSource.Extract(f.content) == Success(SourceText(e.base.source))
  {
    var files := DeltaSet(es, templ, rnd, json).value;
    var mods := Modifieds(es);
    ModifiedsMembers(es);
    ArticleFilesSpec(mods, templ, rnd);
    assert files[k] == files[..|mods|][k];
    ArticleHtmlExtracts(mods[k].base, templ, rnd);
  }

  // ---------------------------------------------------------------------
  // Writing

  function Deltas(files: seq<File>): (d: seq<TreeEntry>)
    ensures |d| == |files|
    ensures forall k | 0 <= k < |files| :: d[k] == TreeEntry(files[k].path, "100644", "blob", files[k].content)
  {
    seq(|files|, k requires 0 <= k < |files| => TreeEntry(files[k].path, "100644", "blob", files[k].content))
  }

  /** The three remote steps of `_writeFiles`: a tree on the current head
      tree, a commit whose parent is the current head commit, and a
      fast-forward move of the branch; the new head if all three succeed. */
  function PushResult(remote: Remote, branch: string, head: Head, files: seq<File>, msg: string): (r: Result<Head, Error>)
    ensures var tree := remote.createTree(Deltas(files), head.tree);
            var commit := if tree.Some? then remote.commit(head.commit, tree.value, msg) else None;
            r.Success? <==> tree.Some? && commit.Some? && remote.updateHead("heads/" + branch, commit.value, false)
    ensures r.Success? ==>
              && Some(r.value.tree) == remote.createTree(Deltas(files), head.tree)
              && Some(r.value.commit) == remote.commit(head.commit, r.value.tree, msg)
  {
    match remote.createTree(Deltas(files), head.tree)
    case None => Failure(CreateTreeFailed)
    case Some(tree) =>
      match remote.commit(head.commit, tree, msg)
      case None => Failure(CommitFailed)
      case Some(commit) =>
        if remote.updateHead("heads/" + branch, commit, false) then Success(Head(commit, tree))
        else Failure(UpdateHeadFailed)
  }

  /** The outcome of `saveArticles` once the store is available: the
      template, then the delta set, then the push. */
  function SaveResult(es: seq<Entry>, templ: Option<string>, rnd: Renderer, json: Json,
                      remote: Remote, branch: string, head: Head, msg: string): Result<Head, Error>
  {
    match templ
    case None => Failure(ReadFailed(ArticleTemplFile))
    case Some(t) =>
      match DeltaSet(es, t, rnd, json)
      case Failure(e) => Failure(e)
      case Success(files) => PushResult(remote, branch, head, files, msg)
  }

  /** A save succeeds only when the template is there, every modified
      source is Latin-1 and all three remote steps succeed; the new head is
      the commit made from exactly the delta set. */
  lemma SaveResultSteps(es: seq<Entry>, templ: Option<string>, rnd: Renderer, json: Json,
                        remote: Remote, branch: string, head: Head, msg: string)
    requires SaveResult(es, templ, rnd, json, remote, branch, head, msg).Success?
    ensures templ.Some? && DeltaSet(es, templ.value, rnd, json).Success?
    ensures forall e | e in es && EntryModified(e) :: Base64.IsLatin1(SourceText(e.base.source))
    ensures PushResult(remote, branch, head, DeltaSet(es, templ.value, rnd, json).value, msg)
            == SaveResult(es, templ, rnd, json, remote, branch, head, msg)
  {
    var mods := Modifieds(es);
    ModifiedsMembers(es);
    ArticleFilesSpec(mods, templ.value, rnd);
    forall e | e in es && EntryModified(e)
      ensures Base64.IsLatin1(SourceText(e.base.source))
    {
      var k :| 0 <= k < |mods| && mods[k] == e;
    }
  }

  /** The converse of `SaveResultSteps`: with the template there and every
      modified source Latin-1, the delta set is built, and the save
      succeeds exactly when its push does. */
  lemma SaveResultSucceeds(es: seq<Entry>, templ: Option<string>, rnd: Renderer, json: Json,
                           remote: Remote, branch: string, head: Head, msg: string)
    requires templ.Some?
    requires forall e | e in es && EntryModified(e) :: Base64.IsLatin1(SourceText(e.base.source))
    ensures DeltaSet(es, templ.value, rnd, json).Success?
    ensures SaveResult(es, templ, rnd, json, remote, branch, head, msg)
            == PushResult(remote, branch, head, DeltaSet(es, templ.value, rnd, json).value, msg)
  {
    var mods := Modifieds(es);
    ModifiedsMembers(es);
    ArticleFilesSpec(mods, templ.value, rnd);
    assert forall k | 0 <= k < |mods| :: mods[k] in mods;
  }

  // ---------------------------------------------------------------------
  // Article objects seen by the store

  /** The article objects of `all` that are modified, in order. */
  function FilterModified(all: seq<MonitoredArticle>): seq<MonitoredArticle>
    reads all
  {
    if all == [] then []
    else if all[0].Modified() then [all[0]] + FilterModified(all[1..])
    else FilterModified(all[1..])
  }

  /** The objects kept are those of `all` that are modified. */
  lemma {:induction false} FilterModifiedMembers(all: seq<MonitoredArticle>)
    ensures forall k | 0 <= k < |FilterModified(all)| :: FilterModified(all)[k] in all
    ensures forall k | 0 <= k < |all| :: all[k] in FilterModified(all) <==> all[k].Modified()
  {
    if all != [] {
      FilterModifiedMembers(all[1..]);
      var r := FilterModified(all);
      var rest := FilterModified(all[1..]);
      forall k | 0 <= k < |r|
        ensures r[k] in all
      {
        if all[0].Modified() {
          assert r == [all[0]] + rest;
          if k > 0 {
            assert r[k] == rest[k - 1] && rest[k - 1] in all[1..];
          }
        } else {
          assert r == rest && rest[k] in all[1..];
        }
      }
      forall k | 0 <= k < |all|
        ensures all[k] in r <==> all[k].Modified()
      {
        if k > 0 {
          assert all[k] == all[1..][k - 1];
        }
      }
    }
  }

  /** The entries of the objects kept are those the value-level filter keeps. */
  lemma {:induction false} FilterModifiedEntries(all: seq<MonitoredArticle>)
    ensures Entries(FilterModified(all)) == Modifieds(Entries(all))
  {
    if all != [] {
      FilterModifiedEntries(all[1..]);
      var r := FilterModified(all);
      var rest := FilterModified(all[1..]);
      assert Entries(all)[1..] == Entries(all[1..]);
      if all[0].Modified() {
        assert Entries(r) == [all[0].EntryOf()] + Entries(rest) by {
          assert r[1..] == rest;
        }
      }
    }
  }

  /** `FilterModified` pointwise, in the terms the save steps use. */
  lemma ModifiedObjects(all: seq<MonitoredArticle>)
    ensures var r, es := FilterModified(all), Entries(all);
            && (forall k | 0 <= k < |r| :: r[k] in all)
            && (forall k | 0 <= k < |all| :: EntryModified(es[k]) <==> all[k] in r)
            && |r| == |Modifieds(es)|
            && (forall k | 0 <= k < |r| :: r[k].Base() == Modifieds(es)[k].base)
  {
    FilterModifiedMembers(all);
    FilterModifiedEntries(all);
    var r, es := FilterModified(all), Entries(all);
    assert forall k | 0 <= k < |r| :: r[k].Base() == Entries(r)[k].base;
  }

  /** `modifieds.map(cur => ({path, content: cur.html}))`. */
  function FilesOf(mods: seq<MonitoredArticle>): (r: seq<File>)
    reads mods
    ensures |r| == |mods|
    ensures forall k | 0 <= k < |mods| :: r[k] == File(ArticlePrefix + mods[k].name, mods[k].html.GetOr(""))
  {
    seq(|mods|, k requires 0 <= k < |mods| reads mods => File(ArticlePrefix + mods[k].name, mods[k].html.GetOr("")))
  }

  function BriefsOf(all: seq<MonitoredArticle>): (r: seq<Brief>)
    reads all
    ensures |r| == |all| && forall k | 0 <= k < |all| :: r[k] == all[k].GetBrief()
  {
    seq(|all|, k requires 0 <= k < |all| reads all => all[k].GetBrief())
  }

  function ArticlesOf(all: seq<MonitoredArticle>): (r: seq<Article>)
    reads all
    ensures |r| == |all| && forall k | 0 <= k < |all| :: r[k] == Article(all[k].Base(), all[k].renderedBrief)
  {
    seq(|all|, k requires 0 <= k < |all| reads all => Article(all[k].Base(), all[k].renderedBrief))
  }

  function Bases(all: seq<MonitoredArticle>): (r: seq<Snapshot>)
    reads all
    ensures |r| == |all| && forall k | 0 <= k < |all| :: r[k] == all[k].Base()
  {
    seq(|all|, k requires 0 <= k < |all| reads all => all[k].Base())
  }

  /** An article object holding the marker's output for snapshot `s`. */
  predicate MarkedFrom(a: MonitoredArticle, s: Snapshot, rnd: Renderer)
    reads a`renderedBrief, a`rendered
  {
    a.renderedBrief == Some(rnd.marker(s).renderedBrief) && a.rendered == Some(rnd.marker(s).rendered)
  }

  /** The three fields rendering sets. */
  datatype RenderFields = RenderFields(renderedBrief: Option<string>, rendered: Option<string>, html: Option<string>)

  /** Rendering fields as rendering snapshot `s` sets them: the marker's
      output and the stored file. */
  predicate FieldsRenderedFrom(f: RenderFields, s: Snapshot, templ: string, rnd: Renderer) {
    && f.renderedBrief == Some(rnd.marker(s).renderedBrief) && f.rendered == Some(rnd.marker(s).rendered)
    && f.html.Some? && ArticleHtml(s, templ, rnd) == Success(f.html.value)
  }

  function RenderFieldsOf(a: MonitoredArticle): RenderFields
    reads a`renderedBrief, a`rendered, a`html
  {
    RenderFields(a.renderedBrief, a.rendered, a.html)
  }

  /** An article object rendered from snapshot `s`. */
  predicate RenderedFrom(a: MonitoredArticle, s: Snapshot, templ: string, rnd: Renderer)
    reads a`renderedBrief, a`rendered, a`html
  {
    FieldsRenderedFrom(RenderFieldsOf(a), s, templ, rnd)
  }

  function RenderFieldsAll(all: seq<MonitoredArticle>): (r: seq<RenderFields>)
    reads all
    ensures |r| == |all| && forall k | 0 <= k < |all| :: r[k] == RenderFieldsOf(all[k])
  {
    seq(|all|, k requires 0 <= k < |all| reads all => RenderFieldsOf(all[k]))
  }

  /** The three fields rendering sets are as they were before the call. */
  twostate predicate RenderUnchanged(a: MonitoredArticle)
    reads a`renderedBrief, a`rendered, a`html
  {
    RenderFieldsOf(a) == old(RenderFieldsOf(a))
  }

  /** An article object as `_renderArticleHtmls` leaves it. */
  predicate IsRendered(a: MonitoredArticle, templ: string, rnd: Renderer)
    reads a
  {
    RenderedFrom(a, a.Base(), templ, rnd)
  }

  predicate AllRendered(articles: seq<MonitoredArticle>, templ: string, rnd: Renderer)
    reads articles
  {
    forall k | 0 <= k < |articles| :: IsRendered(articles[k], templ, rnd)
  }

  /** No object of `all` had a rendering field changed. */
  twostate predicate AllUntouched(all: seq<MonitoredArticle>)
    reads all
  {
    forall k | 0 <= k < |all| :: RenderUnchanged(all[k])
  }

  /** The rendering fields `now` are those of `before` wherever the entry
      in `es` is unmodified. */
  predicate KeptWhereUnmodified(es: seq<Entry>, before: seq<RenderFields>, now: seq<RenderFields>) {
    && |es| == |before| == |now|
    && forall k | 0 <= k < |es| :: !EntryModified(es[k]) ==> now[k] == before[k]
  }

  /** The rendering fields `now` are rendered from the entry in `es`
      wherever that entry is modified. */
  predicate RenderedWhereModified(es: seq<Entry>, now: seq<RenderFields>, templ: string, rnd: Renderer) {
    && |es| == |now|
    && forall k | 0 <= k < |es| :: EntryModified(es[k]) ==> FieldsRenderedFrom(now[k], es[k].base, templ, rnd)
  }

  /** An error of one of the three remote steps of a push. */
  predicate PushError(e: Error) {
    e.CreateTreeFailed? || e.CommitFailed? || e.UpdateHeadFailed?
  }

  /** The loop of `_renderArticleHtmls` stopped at the article at `stop`,
      whose source `btoa` rejects: the articles before it are rendered and
      it holds only the marker's output. */
  predicate StoppedAt(articles: seq<MonitoredArticle>, stop: nat, templ: string, rnd: Renderer)
    reads articles
  {
    && stop < |articles|
    && !Base64.IsLatin1(SourceText(articles[stop].source))
    && (forall k | 0 <= k < stop :: IsRendered(articles[k], templ, rnd))
    && MarkedFrom(articles[stop], articles[stop].Base(), rnd)
  }

  /** A stopped loop left the file of the article at `stop`, and every
      later article not also met before, as they were. */
  twostate predicate UntouchedFrom(articles: seq<MonitoredArticle>, stop: nat)
    requires stop < |articles|
    reads articles
  {
    && articles[stop].html == old(articles[stop].html)
    && forall k | stop < k < |articles| && articles[k] !in articles[..stop + 1] :: RenderUnchanged(articles[k])
  }

  /** Once every modified object is rendered, the files read off the
      objects are those of the delta set. */
  lemma FilesOfRendered(mods: seq<MonitoredArticle>, ms: seq<Entry>, templ: string, rnd: Renderer)
    requires |ms| == |mods| && forall k | 0 <= k < |mods| :: mods[k].Base() == ms[k].base
    requires AllRendered(mods, templ, rnd)
    ensures ArticleFiles(ms, templ, rnd) == Success(FilesOf(mods))
  {
    ArticleFilesSpec(ms, templ, rnd);
    var files := ArticleFiles(ms, templ, rnd);
    assert files.Success?;
    forall k | 0 <= k < |ms|
      ensures files.value[k] == FilesOf(mods)[k]
    {
      assert ms[k].base.name == mods[k].name;
      assert files.value[k].path == ArticlePrefix + mods[k].name;
      assert Success(files.value[k].content) == ArticleHtml(ms[k].base, templ, rnd);
    }
    assert files.value == FilesOf(mods);
  }

  /** After rendering, the files and the index read off the objects are
      those the specification functions give for the entries before it. */
  lemma SavedFilesAre(all: seq<MonitoredArticle>, es: seq<Entry>, modifieds: seq<MonitoredArticle>,
                      templ: string, rnd: Renderer, json: Json)
    requires |es| == |all| && forall k | 0 <= k < |all| :: all[k].Base() == es[k].base
    requires forall k | 0 <= k < |all| :: !EntryModified(es[k]) ==> all[k].renderedBrief == es[k].renderedBrief
    requires forall k | 0 <= k < |all| :: EntryModified(es[k]) ==> IsRendered(all[k], templ, rnd)
    requires |modifieds| == |Modifieds(es)|
    requires forall k | 0 <= k < |modifieds| :: modifieds[k].Base() == Modifieds(es)[k].base
    requires AllRendered(modifieds, templ, rnd)
    ensures DeltaSet(es, templ, rnd, json)
            == Success(FilesOf(modifieds) + [File(IndexFile, json.stringify(BriefsOf(all)))])
    ensures ArticlesOf(all) == SavedIndex(es, rnd)
  {
    FilesOfRendered(modifieds, Modifieds(es), templ, rnd);
    assert forall k | 0 <= k < |all| :: all[k].renderedBrief == SavedBrief(es[k], rnd);
    assert BriefsOf(all) == IndexBriefs(es, rnd);
  }

  /** Every object of `all` that is in the rendered list is rendered. */
  lemma RenderedMembers(all: seq<MonitoredArticle>, mods: seq<MonitoredArticle>, es: seq<Entry>,
                        templ: string, rnd: Renderer)
    requires |es| == |all|
    requires forall k | 0 <= k < |all| :: EntryModified(es[k]) <==> all[k] in mods
    requires AllRendered(mods, templ, rnd)
    ensures forall k | 0 <= k < |all| :: EntryModified(es[k]) ==> IsRendered(all[k], templ, rnd)
  {
    forall k | 0 <= k < |all| && EntryModified(es[k])
      ensures IsRendered(all[k], templ, rnd)
    {
      var j :| 0 <= j < |mods| && mods[j] == all[k];
    }
  }

  /** Once the rendered list is rendered, the rendering fields of every
      modified object are those rendered from its entry. */
  lemma RenderedWhere(all: seq<MonitoredArticle>, mods: seq<MonitoredArticle>, es: seq<Entry>,
                      templ: string, rnd: Renderer)
    requires |es| == |all| && forall k | 0 <= k < |all| :: all[k].Base() == es[k].base
    requires forall k | 0 <= k < |all| :: EntryModified(es[k]) <==> all[k] in mods
    requires AllRendered(mods, templ, rnd)
    ensures RenderedWhereModified(es, RenderFieldsAll(all), templ, rnd)
  {
    RenderedMembers(all, mods, es, templ, rnd);
  }

  /** A failed render fails the save with the same error. */
  lemma RenderFailure(es: seq<Entry>, templ: Option<string>, rnd: Renderer, json: Json, remote: Remote,
                      branch: string, head: Head, msg: string, e: Error)
    requires templ.None? ==> e == ReadFailed(ArticleTemplFile)
    requires templ.Some? ==> e == InvalidCharacter
    requires templ.Some? ==>
               exists k | 0 <= k < |Modifieds(es)| :: !Base64.IsLatin1(SourceText(Modifieds(es)[k].base.source))
    ensures SaveResult(es, templ, rnd, json, remote, branch, head, msg) == Failure(e)
  {
    if templ.Some? {
      ArticleFilesSpec(Modifieds(es), templ.value, rnd);
    }
  }

  /** The objects of a prefix one longer are those of the prefix and the next one. */
  lemma PrefixStep(s: seq<MonitoredArticle>, i: nat)
    requires i < |s|
    ensures forall o :: o in s[..i + 1] <==> o in s[..i] || o == s[i]
  {
    assert s[..i + 1] == s[..i] + [s[i]];
  }

  /** An article whose source `btoa` rejects cannot already have been
      rendered earlier in the list. */
  lemma RejectedNotBefore(articles: seq<MonitoredArticle>, bases: seq<Snapshot>, i: nat,
                          templ: string, rnd: Renderer)
    requires i < |articles| == |bases|
    requires forall k | 0 <= k < |articles| :: articles[k].Base() == bases[k]
    requires forall k | 0 <= k < i :: RenderedFrom(articles[k], bases[k], templ, rnd)
    requires !Base64.IsLatin1(SourceText(bases[i].source))
    ensures articles[i] !in articles[..i]
  {
  }

  class GhBlog {
    const branch: string
    var headCommitSha: Sha
    var headTreeSha: Sha
    var articleTempl: Option<string>
    /** The index entries; `None` until a reload succeeds. */
    var articleIndex: Option<seq<Article>>

    function HeadOf(): Head
      reads this`headCommitSha, this`headTreeSha
    {
      Head(headCommitSha, headTreeSha)
    }

    /** `available`: an index has been loaded. */
    predicate Available()
      reads this`articleIndex
    {
      articleIndex.Some?
    }

    constructor (branch: string, head: Head)
      ensures this.branch == branch && HeadOf() == head
      ensures articleTempl == None && articleIndex == None && !Available()
    {
      this.branch := branch;
      headCommitSha := head.commit;
      headTreeSha := head.tree;
      articleTempl := None;
      articleIndex := None;
    }

    /** `GhBlog.load`: a failed branch lookup is classified; otherwise the
        store is built on the branch head and reloaded, and a failed reload
        leaves it unavailable rather than failing the load. */
    static method Load(branch: string, lookup: Result<Head, Option<int>>, remote: Remote, json: Json, now: string)
      returns (r: Result<GhBlog, LoadError>)
      ensures lookup.Failure? ==> r == Failure(ClassifyLoadError(lookup.error))
      ensures lookup.Success? ==> r.Success? && fresh(r.value)
      ensures lookup.Success? ==>
                && r.value.branch == branch && r.value.HeadOf() == lookup.value && r.value.articleTempl == None
                && var loaded := ReloadResult(remote, json, lookup.value.commit, now);
                   r.value.articleIndex == if loaded.Success? then Some(loaded.value) else None
    {
      if lookup.Failure? {
        return Failure(ClassifyLoadError(lookup.error));
      }
      var ghb := new GhBlog(branch, lookup.value);
      var _ := ghb.Reload(remote, json, now);
      r := Success(ghb);
    }

    /** `_checkAvailable`. */
    method CheckAvailable() returns (r: Outcome<Error>)
      ensures r == if Available() then Pass else Fail(Unavailable)
    {
      r := if articleIndex.Some? then Pass else Fail(Unavailable);
    }

    /** `getIndexMonitored`: a fresh monitored article per index entry, in
        order, each with its baseline taken; no two entries share an object. */
    method GetIndexMonitored(now: string) returns (r: Result<seq<MonitoredArticle>, Error>)
      ensures r.Failure? <==> !Available()
      ensures r.Failure? ==> r.error == Unavailable
      ensures r.Success? ==> |r.value| == |articleIndex.value|
      ensures r.Success? ==> forall k | 0 <= k < |r.value| ::
                && fresh(r.value[k])
                && Article(r.value[k].Base(), r.value[k].renderedBrief) == articleIndex.value[k]
                && r.value[k].lastVersion == Some(articleIndex.value[k].base)
                && !r.value[k].Modified()
                && r.value[k].rendered == None && r.value[k].html == None && !r.value[k].removed
      ensures r.Success? ==> forall j, k | 0 <= j < k < |r.value| :: r.value[j] != r.value[k]
    {
      if articleIndex.None? {
        return Failure(Unavailable);
      }
      var index := articleIndex.value;
      var monitored: seq<MonitoredArticle> := [];
      var i := 0;
      while i < |index|
        invariant 0 <= i <= |index| && |monitored| == i
        invariant forall k | 0 <= k < i ::
                    && fresh(monitored[k])
                    && Article(monitored[k].Base(), monitored[k].renderedBrief) == index[k]
                    && monitored[k].lastVersion == Some(index[k].base)
                    && monitored[k].rendered == None && monitored[k].html == None && !monitored[k].removed
        invariant forall j, k | 0 <= j < k < i :: monitored[j] != monitored[k]
      {
        var a := new MonitoredArticle(PropsOf(index[i]), true, now);
        monitored := monitored + [a];
        i := i + 1;
      }
      r := Success(monitored);
    }

    /** `reload`: the index is dropped first, so any failure leaves the
        store unavailable; on success it is the parsed index, in order. */
    method Reload(remote: Remote, json: Json, now: string) returns (r: Outcome<Error>)
      modifies this`articleIndex
      ensures var loaded := ReloadResult(remote, json, headCommitSha, now);
              && (r.Pass? <==> loaded.Success?)
              && (r.Pass? ==> articleIndex == Some(loaded.value))
              && (r.Fail? ==> r.error == loaded.error && articleIndex == None)
      ensures r.Fail? ==> !Available()
    {
      articleIndex := None;
      var marker := remote.getContents(headCommitSha, MarkerFile);
      if marker.None? {
        return Fail(ReadFailed(MarkerFile));
      }
      var content := remote.getContents(headCommitSha, IndexFile);
      if content.None? {
        return Fail(ReadFailed(IndexFile));
      }
      var parsed := json.parse(content.value);
      if parsed.None? {
        return Fail(InvalidIndexFile);
      }
      var index: seq<Article> := [];
      var i := 0;
      while i < |parsed.value|
        invariant 0 <= i <= |parsed.value| && |index| == i
        invariant forall k | 0 <= k < i :: index[k] == NewArticle(parsed.value[k], false, now)
      {
        index := index + [NewArticle(parsed.value[i], false, now)];
        i := i + 1;
      }
      assert index == ReloadResult(remote, json, headCommitSha, now).value;
      articleIndex := Some(index);
      r := Pass;
    }

    /** `doInit`: the initial files written in one commit. */
    method DoInit(initFiles: seq<File>, remote: Remote) returns (r: Outcome<Error>)
      modifies this`headCommitSha, this`headTreeSha
      ensures var pushed := PushResult(remote, branch, old(HeadOf()), initFiles, "init");
              && (r.Pass? <==> pushed.Success?)
              && (r.Pass? ==> HeadOf() == pushed.value)
              && (r.Fail? ==> r.error == pushed.error && HeadOf() == old(HeadOf()))
    {
      r := WriteFiles(initFiles, "init", remote);
    }

    /** `_writeFiles`: the head moves to the new commit and tree only after
        all three remote steps succeed; on any failure it is unchanged. */
    method WriteFiles(files: seq<File>, commitMsg: string, remote: Remote) returns (r: Outcome<Error>)
      modifies this`headCommitSha, this`headTreeSha
      ensures var pushed := PushResult(remote, branch, old(HeadOf()), files, commitMsg);
              && (r.Pass? <==> pushed.Success?)
              && (r.Pass? ==> HeadOf() == pushed.value)
              && (r.Fail? ==> r.error == pushed.error && HeadOf() == old(HeadOf()))
    {
      var deltas := Deltas(files);
      var newTree := remote.createTree(deltas, headTreeSha);
      if newTree.None? {
        return Fail(CreateTreeFailed);
      }
      var newCommit := remote.commit(headCommitSha, newTree.value, commitMsg);
      if newCommit.None? {
        return Fail(CommitFailed);
      }
      var moved := remote.updateHead("heads/" + branch, newCommit.value, false);
      if !moved {
        return Fail(UpdateHeadFailed);
      }
      headCommitSha := newCommit.value;
      headTreeSha := newTree.value;
      r := Pass;
    }

    /** `loadArticle`: the source extracted from the article's file is
        attached; the baseline is not touched. */
    method LoadArticle(article: MonitoredArticle, remote: Remote) returns (r: Outcome<Error>)
      modifies article`source
      ensures !Available() ==> r == Fail(Unavailable)
      ensures Available() ==>
                var loaded := LoadResult(remote, headCommitSha, article.name);
                && (r.Pass? <==> loaded.Success?)
                && (r.Pass? ==> article.source == Some(loaded.value))
                && (r.Fail? ==> r.error == loaded.error)
      ensures r.Fail? ==> article.source == old(article.source)
      ensures article.lastVersion == old(article.lastVersion)
    {
      if articleIndex.None? {
        return Fail(Unavailable);
      }
      var html := remote.getContents(headCommitSha, ArticlePrefix + article.name);
      if html.None? {
        return Fail(ReadFailed(ArticlePrefix + article.name));
      }
      var source := EmbeddedSource.Extract(html.value);
      if source.Failure? {
        return Fail(SourceError(source.error));
      }
      article.source := Some(source.value);
      r := Pass;
    }

    /** One pass of the loop of `_renderArticleHtmls`: the marker's output
        is stored, then the file, unless `btoa` rejects the source. */
    static method RenderArticle(c: MonitoredArticle, templ: string, rnd: Renderer, ghost s: Snapshot)
      returns (ok: bool)
      requires c.Base() == s
      modifies c`renderedBrief, c`rendered, c`html
      ensures ok <==> Base64.IsLatin1(SourceText(s.source))
      ensures MarkedFrom(c, s, rnd)
      ensures ok ==> RenderedFrom(c, s, templ, rnd)
      ensures !ok ==> c.html == old(c.html)
    {
      var marked := rnd.marker(c.Base());
      c.renderedBrief := Some(marked.renderedBrief);
      c.rendered := Some(marked.rendered);
      var b64 := Base64.Btoa(SourceText(c.source));
      if b64.None? {
        return false;
      }
      var body := rnd.mustache(templ, c.Base(), marked);
      c.html := Some(EmbeddedSource.Embed(b64.value, body));
      ok := true;
    }

    /** The loop of `_renderArticleHtmls`: each article in turn gets the
        marker's output and its stored file, until a source `btoa` rejects.
        On a rejection `stop` is its position: the articles before it are
        rendered, it holds only the marker's output, and the articles after
        it that do not also occur before it are untouched. */
    static method RenderAll(articles: seq<MonitoredArticle>, templ: string, rnd: Renderer)
      returns (ok: bool, ghost stop: nat)
      modifies articles`renderedBrief, articles`rendered, articles`html
      ensures ok <==> forall k | 0 <= k < |articles| :: Base64.IsLatin1(SourceText(articles[k].source))
      ensures ok ==> AllRendered(articles, templ, rnd)
      ensures !ok ==>
                StoppedAt(articles, stop, templ, rnd) && UntouchedFrom(articles, stop)
    {
      ghost var bases := Bases(articles);
      ghost var before := RenderFieldsAll(articles);
      stop := 0;
      var i := 0;
      while i < |articles|
        invariant 0 <= i <= |articles|
        invariant forall k | 0 <= k < |articles| :: articles[k].Base() == bases[k]
        invariant forall k | 0 <= k < i :: RenderedFrom(articles[k], bases[k], templ, rnd)
        invariant forall k | 0 <= k < |articles| && articles[k] !in articles[..i] ::
                    RenderFieldsOf(articles[k]) == before[k]
      {
        ok := RenderStep(articles, bases, before, i, articles[i], templ, rnd);
        if !ok {
          stop := i;
          return;
        }
        i := i + 1;
      }
      ok := true;
    }

    /** One pass of `RenderAll`'s loop, stated against the snapshots
        `bases` and the rendering fields `before` taken when it started. */
    static method RenderStep(articles: seq<MonitoredArticle>, ghost bases: seq<Snapshot>,
                             ghost before: seq<RenderFields>, i: nat, c: MonitoredArticle, templ: string, rnd: Renderer)
      returns (ok: bool)
      requires i < |articles| == |bases| == |before| && c == articles[i]
      requires forall k | 0 <= k < |articles| :: articles[k].Base() == bases[k]
      requires forall k | 0 <= k < i :: RenderedFrom(articles[k], bases[k], templ, rnd)
      requires forall k | 0 <= k < |articles| && articles[k] !in articles[..i] ::
                 RenderFieldsOf(articles[k]) == before[k]
      modifies c`renderedBrief, c`rendered, c`html
      ensures ok <==> Base64.IsLatin1(SourceText(bases[i].source))
      ensures ok ==> forall k | 0 <= k < i + 1 :: RenderedFrom(articles[k], bases[k], templ, rnd)
      ensures ok ==> forall k | 0 <= k < |articles| && articles[k] !in articles[..i + 1] ::
                       RenderFieldsOf(articles[k]) == before[k]
      ensures !ok ==>
                && (forall k | 0 <= k < i :: RenderedFrom(articles[k], bases[k], templ, rnd))
                && MarkedFrom(articles[i], bases[i], rnd) && articles[i].html == before[i].html
                && (forall k | i < k < |articles| && articles[k] !in articles[..i + 1] ::
                      RenderFieldsOf(articles[k]) == before[k])
    {
      if !Base64.IsLatin1(SourceText(bases[i].source)) {
        RejectedNotBefore(articles, bases, i, templ, rnd);
      }
      PrefixStep(articles, i);
      ok := RenderArticle(c, templ, rnd, bases[i]);
      if ok {
        forall k | 0 <= k < i + 1
          ensures RenderedFrom(articles[k], bases[k], templ, rnd)
        {
          if articles[k] == c {
            assert bases[k] == bases[i];
          }
        }
      }
    }

    /** `_renderArticleHtmls`: the template is taken (and cached), then
        every article is rendered with it.  Without a template no article
        is touched; on a rejected source `stop` is its position, as in
        `RenderAll`. */
    method RenderArticleHtmls(articles: seq<MonitoredArticle>, rnd: Renderer, remote: Remote)
      returns (r: Result<string, Error>, ghost stop: nat)
      modifies this`articleTempl, articles`renderedBrief, articles`rendered, articles`html
      ensures var templ := UsedTemplate(old(articleTempl), remote, headCommitSha);
              && (templ.None? ==> r == Failure(ReadFailed(ArticleTemplFile)) && articleTempl == old(articleTempl))
              && (templ.Some? ==> articleTempl == templ)
              && (r.Success? <==>
                    templ.Some? && forall k | 0 <= k < |articles| :: Base64.IsLatin1(SourceText(old(articles[k].source))))
              && (r.Success? ==> r.value == templ.value)
              && (r.Failure? && templ.Some? ==> r.error == InvalidCharacter)
      ensures r.Success? ==> AllRendered(articles, r.value, rnd)
      ensures UsedTemplate(old(articleTempl), remote, headCommitSha).None? ==> AllUntouched(articles)
      ensures r.Failure? && UsedTemplate(old(articleTempl), remote, headCommitSha).Some? ==>
                StoppedAt(articles, stop, articleTempl.value, rnd) && UntouchedFrom(articles, stop)
    {
      stop := 0;
      var templ: string;
      if articleTempl.Some? && articleTempl.value != "" {
        templ := articleTempl.value;
      } else {
        var read := remote.getContents(headCommitSha, ArticleTemplFile);
        if read.None? {
          return Failure(ReadFailed(ArticleTemplFile)), 0;
        }
        templ := read.value;
      }
      articleTempl := Some(templ);
      var ok;
      ok, stop := RenderAll(articles, templ, rnd);
      if !ok {
        return Failure(InvalidCharacter), stop;
      }
      r := Success(templ);
    }

    /** `saveArticles`: the modified articles are rendered, their files and
        the index file are written in one commit, and only then is the
        index replaced by all the given articles.  Baselines are not
        advanced and articles flagged `removed` are saved like the rest. */
    method SaveArticles(allArticles: seq<MonitoredArticle>, rnd: Renderer, commitMsg: string,
                        remote: Remote, json: Json)
      returns (r: Outcome<Error>)
      modifies this`articleIndex, this`headCommitSha, this`headTreeSha, this`articleTempl
      modifies allArticles`renderedBrief, allArticles`rendered, allArticles`html
      ensures !old(Available()) ==>
                r == Fail(Unavailable) && HeadOf() == old(HeadOf()) && articleTempl == old(articleTempl)
      ensures old(Available()) ==>
                var saved := SaveResult(old(Entries(allArticles)),
                                        UsedTemplate(old(articleTempl), remote, old(headCommitSha)),
                                        rnd, json, remote, branch, old(HeadOf()), commitMsg);
                && (r.Pass? <==> saved.Success?)
                && (r.Pass? ==> HeadOf() == saved.value)
                && (r.Fail? ==> r.error == saved.error)
      ensures r.Pass? ==> articleIndex == Some(SavedIndex(old(Entries(allArticles)), rnd))
      ensures r.Fail? ==> articleIndex == old(articleIndex) && HeadOf() == old(HeadOf())
      ensures old(Available()) ==>
                var templ := UsedTemplate(old(articleTempl), remote, old(headCommitSha));
                articleTempl == if templ.Some? then templ else old(articleTempl)
      ensures KeptWhereUnmodified(old(Entries(allArticles)), old(RenderFieldsAll(allArticles)), RenderFieldsAll(allArticles))
      ensures !old(Available()) || UsedTemplate(old(articleTempl), remote, old(headCommitSha)).None? ==>
                RenderFieldsAll(allArticles) == old(RenderFieldsAll(allArticles))
      ensures r.Pass? || PushError(r.error) ==>
                RenderedWhereModified(old(Entries(allArticles)), RenderFieldsAll(allArticles),
                                      UsedTemplate(old(articleTempl), remote, old(headCommitSha)).value, rnd)
    {
      if articleIndex.None? {
        return Fail(Unavailable);
      }
      r := SaveAvailable(allArticles, rnd, commitMsg, remote, json,
                         Entries(allArticles), RenderFieldsAll(allArticles),
                         UsedTemplate(articleTempl, remote, headCommitSha));
    }

    /** `saveArticles` once the blog is known to be available, stated
        against the entries `es`, the rendering fields `before` and the
        template `templ` of the state it starts in. */
    method SaveAvailable(allArticles: seq<MonitoredArticle>, rnd: Renderer, commitMsg: string,
                         remote: Remote, json: Json,
                         ghost es: seq<Entry>, ghost before: seq<RenderFields>, ghost templ: Option<string>)
      returns (r: Outcome<Error>)
      requires Available()
      requires es == Entries(allArticles) && before == RenderFieldsAll(allArticles)
      requires templ == UsedTemplate(articleTempl, remote, headCommitSha)
      modifies this`articleIndex, this`headCommitSha, this`headTreeSha, this`articleTempl
      modifies allArticles`renderedBrief, allArticles`rendered, allArticles`html
      ensures var saved := SaveResult(es, templ, rnd, json, remote, branch, old(HeadOf()), commitMsg);
              && (r.Pass? <==> saved.Success?)
              && (r.Pass? ==> HeadOf() == saved.value && articleIndex == Some(SavedIndex(es, rnd)))
              && (r.Fail? ==> r.error == saved.error && articleIndex == old(articleIndex) && HeadOf() == old(HeadOf()))
      ensures articleTempl == if templ.Some? then templ else old(articleTempl)
      ensures KeptWhereUnmodified(es, before, RenderFieldsAll(allArticles))
      ensures templ.None? ==> RenderFieldsAll(allArticles) == before
      ensures r.Pass? || PushError(r.error) ==>
                templ.Some? && RenderedWhereModified(es, RenderFieldsAll(allArticles), templ.value, rnd)
    {
      var modifieds, rendered := RenderSelected(allArticles, rnd, remote, es, before);
      r := FinishSave(allArticles, modifieds, rendered, rnd, commitMsg, remote, json, es, templ);
    }

    /** The second half of `saveArticles`: a failed rendering fails the
        save; otherwise the rendered files are committed.  No article
        object changes. */
    method FinishSave(allArticles: seq<MonitoredArticle>, modifieds: seq<MonitoredArticle>,
                      rendered: Result<string, Error>, rnd: Renderer, commitMsg: string, remote: Remote, json: Json,
                      ghost es: seq<Entry>, ghost templ: Option<string>)
      returns (r: Outcome<Error>)
      requires templ.None? ==> rendered == Failure(ReadFailed(ArticleTemplFile))
      requires rendered.Failure? && templ.Some? ==>
                 && rendered.error == InvalidCharacter
                 && exists k | 0 <= k < |Modifieds(es)| :: !Base64.IsLatin1(SourceText(Modifieds(es)[k].base.source))
      requires rendered.Success? ==> templ == Some(rendered.value)
      requires rendered.Success? ==>
                 && |es| == |allArticles|
                 && (forall k | 0 <= k < |allArticles| :: allArticles[k].Base() == es[k].base)
                 && (forall k | 0 <= k < |allArticles| ::
                       !EntryModified(es[k]) ==> allArticles[k].renderedBrief == es[k].renderedBrief)
                 && (forall k | 0 <= k < |allArticles| :: EntryModified(es[k]) <==> allArticles[k] in modifieds)
                 && |modifieds| == |Modifieds(es)|
                 && (forall k | 0 <= k < |modifieds| :: modifieds[k].Base() == Modifieds(es)[k].base)
                 && AllRendered(modifieds, rendered.value, rnd)
      modifies this`articleIndex, this`headCommitSha, this`headTreeSha
      ensures var saved := SaveResult(es, templ, rnd, json, remote, branch, old(HeadOf()), commitMsg);
              && (r.Pass? <==> saved.Success?)
              && (r.Pass? ==> HeadOf() == saved.value && articleIndex == Some(SavedIndex(es, rnd)))
              && (r.Fail? ==> r.error == saved.error && articleIndex == old(articleIndex) && HeadOf() == old(HeadOf()))
      ensures r.Pass? || PushError(r.error) ==> rendered.Success?
      ensures RenderFieldsAll(allArticles) == old(RenderFieldsAll(allArticles))
    {
      if rendered.Failure? {
        RenderFailure(es, templ, rnd, json, remote, branch, HeadOf(), commitMsg, rendered.error);
        return Fail(rendered.error);
      }
      r := CommitRendered(allArticles, modifieds, rendered.value, rnd, commitMsg, remote, json, es);
    }

    /** The first half of `saveArticles`: the modified objects are picked
        out and rendered.  Unmodified objects are never touched; without a
        template no object is; on success every modified object is
        rendered. */
    method RenderSelected(allArticles: seq<MonitoredArticle>, rnd: Renderer, remote: Remote,
                          ghost es: seq<Entry>, ghost before: seq<RenderFields>)
      returns (modifieds: seq<MonitoredArticle>, r: Result<string, Error>)
      requires es == Entries(allArticles) && before == RenderFieldsAll(allArticles)
      modifies this`articleTempl, allArticles`renderedBrief, allArticles`rendered, allArticles`html
      ensures var templ := UsedTemplate(old(articleTempl), remote, headCommitSha);
              && (templ.None? ==> r == Failure(ReadFailed(ArticleTemplFile)) && articleTempl == old(articleTempl))
              && (templ.Some? ==> articleTempl == templ)
              && (r.Failure? && templ.Some? ==>
                    && r.error == InvalidCharacter
                    && exists k | 0 <= k < |Modifieds(es)| :: !Base64.IsLatin1(SourceText(Modifieds(es)[k].base.source)))
              && (r.Success? ==> templ == Some(r.value))
      ensures r.Success? ==>
                && (forall k | 0 <= k < |allArticles| :: allArticles[k].Base() == es[k].base)
                && (forall k | 0 <= k < |allArticles| ::
                      !EntryModified(es[k]) ==> allArticles[k].renderedBrief == es[k].renderedBrief)
                && (forall k | 0 <= k < |allArticles| :: EntryModified(es[k]) <==> allArticles[k] in modifieds)
                && |modifieds| == |Modifieds(es)|
                && (forall k | 0 <= k < |modifieds| :: modifieds[k].Base() == Modifieds(es)[k].base)
                && AllRendered(modifieds, r.value, rnd)
                && RenderedWhereModified(es, RenderFieldsAll(allArticles), r.value, rnd)
      ensures KeptWhereUnmodified(es, before, RenderFieldsAll(allArticles))
      ensures UsedTemplate(old(articleTempl), remote, headCommitSha).None? ==> RenderFieldsAll(allArticles) == before
    {
      modifieds := FilterModified(allArticles);
      ModifiedObjects(allArticles);
      FilterModifiedMembers(allArticles);
      ghost var stop;
      r, stop := RenderModified(allArticles, modifieds, rnd, remote, es);
      if r.Failure? && UsedTemplate(old(articleTempl), remote, headCommitSha).None? {
        forall k | 0 <= k < |allArticles|
          ensures RenderFieldsOf(allArticles[k]) == before[k]
        {
          if allArticles[k] in modifieds {
            var j :| 0 <= j < |modifieds| && modifieds[j] == allArticles[k];
          }
        }
      }
      forall k | 0 <= k < |allArticles| && !EntryModified(es[k])
        ensures RenderFieldsOf(allArticles[k]) == before[k]
      {
        assert allArticles[k] !in modifieds;
      }
      if r.Success? {
        RenderedWhere(allArticles, modifieds, es, r.value, rnd);
      }
    }

    /** The rendering step of `saveArticles`: the modified objects are
        rendered, and what that leaves is stated over all the objects. */
    method RenderModified(allArticles: seq<MonitoredArticle>, modifieds: seq<MonitoredArticle>,
                          rnd: Renderer, remote: Remote, ghost es: seq<Entry>)
      returns (r: Result<string, Error>, ghost stop: nat)
      requires |es| == |allArticles|
      requires forall k | 0 <= k < |allArticles| ::
                 allArticles[k].Base() == es[k].base && allArticles[k].renderedBrief == es[k].renderedBrief
      requires forall k | 0 <= k < |allArticles| :: EntryModified(es[k]) <==> allArticles[k] in modifieds
      requires |modifieds| == |Modifieds(es)|
      requires forall k | 0 <= k < |modifieds| :: modifieds[k].Base() == Modifieds(es)[k].base
      modifies this`articleTempl, modifieds`renderedBrief, modifieds`rendered, modifieds`html
      ensures var templ := UsedTemplate(old(articleTempl), remote, headCommitSha);
              && (templ.None? ==> r == Failure(ReadFailed(ArticleTemplFile)) && articleTempl == old(articleTempl))
              && (templ.Some? ==> articleTempl == templ)
              && (r.Failure? && templ.Some? ==>
                    && r.error == InvalidCharacter
                    && exists k | 0 <= k < |Modifieds(es)| :: !Base64.IsLatin1(SourceText(Modifieds(es)[k].base.source)))
              && (r.Success? ==> templ == Some(r.value))
      ensures r.Success? ==>
                && (forall k | 0 <= k < |allArticles| :: allArticles[k].Base() == es[k].base)
                && (forall k | 0 <= k < |allArticles| ::
                      !EntryModified(es[k]) ==> allArticles[k].renderedBrief == es[k].renderedBrief)
                && (forall k | 0 <= k < |allArticles| :: EntryModified(es[k]) <==> allArticles[k] in modifieds)
                && |modifieds| == |Modifieds(es)|
                && (forall k | 0 <= k < |modifieds| :: modifieds[k].Base() == Modifieds(es)[k].base)
                && AllRendered(modifieds, r.value, rnd)
      ensures UsedTemplate(old(articleTempl), remote, headCommitSha).None? ==> AllUntouched(modifieds)
      ensures r.Failure? && UsedTemplate(old(articleTempl), remote, headCommitSha).Some? ==>
                StoppedAt(modifieds, stop, articleTempl.value, rnd) && UntouchedFrom(modifieds, stop)
    {
      ghost var mes := Modifieds(es);
      r, stop := RenderArticleHtmls(modifieds, rnd, remote);
      if r.Failure? {
        if UsedTemplate(old(articleTempl), remote, headCommitSha).Some? {
          assert !Base64.IsLatin1(SourceText(mes[stop].base.source));
        }
        return;
      }
    }

    /** The rest of `saveArticles` once the modified articles are rendered:
        the files read off the objects are written, then the index is
        replaced; on a failed write nothing changes. */
    method CommitRendered(allArticles: seq<MonitoredArticle>, modifieds: seq<MonitoredArticle>, templ: string,
                          rnd: Renderer, commitMsg: string, remote: Remote, json: Json, ghost es: seq<Entry>)
      returns (r: Outcome<Error>)
      requires |es| == |allArticles| && forall k | 0 <= k < |allArticles| :: allArticles[k].Base() == es[k].base
      requires forall k | 0 <= k < |allArticles| ::
                 !EntryModified(es[k]) ==> allArticles[k].renderedBrief == es[k].renderedBrief
      requires forall k | 0 <= k < |allArticles| :: EntryModified(es[k]) <==> allArticles[k] in modifieds
      requires |modifieds| == |Modifieds(es)|
      requires forall k | 0 <= k < |modifieds| :: modifieds[k].Base() == Modifieds(es)[k].base
      requires AllRendered(modifieds, templ, rnd)
      modifies this`articleIndex, this`headCommitSha, this`headTreeSha
      ensures var saved := SaveResult(es, Some(templ), rnd, json, remote, branch, old(HeadOf()), commitMsg);
              && (r.Pass? <==> saved.Success?)
              && (r.Pass? ==> HeadOf() == saved.value && articleIndex == Some(SavedIndex(es, rnd)))
              && (r.Fail? ==> r.error == saved.error && HeadOf() == old(HeadOf()))
              && (r.Fail? ==> articleIndex == old(articleIndex))
      ensures RenderFieldsAll(allArticles) == old(RenderFieldsAll(allArticles))
    {
      var files := FilesOf(modifieds) + [File(IndexFile, json.stringify(BriefsOf(allArticles)))];
      var newIndex := ArticlesOf(allArticles);
      RenderedMembers(allArticles, modifieds, es, templ, rnd);
      SavedFilesAre(allArticles, es, modifieds, templ, rnd, json);
      var written := WriteFiles(files, commitMsg, remote);
      if written.Fail? {
        return Fail(written.error);
      }
      articleIndex := Some(newIndex);
      r := Pass;
    }

  }
}
