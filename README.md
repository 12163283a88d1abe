# simple-pages: the article store of `src/gh_blog.js`, in Dafny

simple-pages keeps a blog as files in one branch of a GitHub repository:
- an `index.json` of article briefs;
- one `articles/<name>` file per article;
- a marker file `simple-pages.init`;
- an `article.templ` template.

This project models the store component, `src/gh_blog.js`, and proves properties of it:

- **`Article` and `MonitoredArticle`** (module `Articles`). An article has five monitored fields: `name`, `title`, `isoPubtime`, `tags` and `source`. A monitored article also has an optional baseline snapshot, `lastVersion`.
  - `modified` compares the live fields with the baseline.
  - `saveCurrent` and `saveCurrentProp` advance the whole baseline or one entry of it.
  - `recover` rolls the fields back to the baseline.
  - `getBrief` projects the entry written to the index file.
  - The snapshots are a `Snapshot` datatype. The monitored article is a class whose methods update its fields.
- **`GhBlog`** (module `Sync`), a class whose state is:
  - the optional article index, whose presence is `available`;
  - the head commit and tree shas;
  - the cached template.

  Its operations are `load`, `reload`, `getIndexMonitored`, `loadArticle`, `doInit`, the three-step commit `_writeFiles`, and `saveArticles` with its rendering loop `_renderArticleHtmls`. Each operation is a method. Each is proved against specification functions: `ReloadResult`, `LoadResult`, `PushResult`, `DeltaSet`, `SaveResult` and `SavedIndex`. Further lemmas are proved about those functions.
- **The embedded-source format** (modules `EmbeddedSource` and `Base64`).
  - A stored article file is `<!-- SOURCE<` + `btoa(source)` + `> -->` + the rendered HTML.
  - `_extractArticleSource` takes the group of the first lazy match of `/<!-- SOURCE<(.*?)> -->/` and applies `atob` to it.
  - `btoa` is modelled as the encoding of section 4 of RFC 4648 over Latin-1 characters. `atob` is the forgiving-base64 decode of the WHATWG Infra standard.
  - The round trip is proved for every Latin-1 source and every HTML body. The proof rests on the fact that no base64 character is `>`, so the lazy match ends at the terminator that was written.

External calls are parameters:
- **The repository API.** `getContents`, `createTree`, `commit` and `updateHead` are functions in a `Remote` value. `None` or `false` stands for a rejected request.
- **Rendering.** The injected `marker` and `Mustache.render` are the two functions of a `Renderer`.
- **JSON.** `JSON.stringify` of the brief list and `JSON.parse` of the index file are the two functions of a `Json`.
- **The clock.** The clock read that gives the default `isoPubtime` is the parameter `now`.

Thrown exceptions and rejected promises are `Failure`/`Fail` results. Each method states the state of the store after every outcome. It also states the rendering fields (`renderedBrief`, `rendered`, `html`) of the article objects after every outcome, except one case: a `saveArticles` that stopped at a rejected source. "## Left out" names that case.

The model follows these behaviours of the code as written:
- **What `saveArticles` saves.** It saves every modified article, including those flagged `removed`. Removed articles stay in the new index, and no field is validated (gh_blog.js:232, 243). The `removed` flag is declared on articles (gh_blog.js:17-19), but `saveArticles` never reads it.
- **Baselines after a save.** `saveArticles` does not advance any baseline. Saved articles are still `modified` afterwards, and the index entries are rebuilt from the objects.
- **State left by a failed save.** A failed `saveArticles` still leaves the template cached. It also leaves the marker output and `html` on the modified objects rendered before the failure. Only the index and the head are left unchanged.
- **`loadArticle`.** It does not refuse an article with local edits, and it does not touch the baseline (gh_blog.js:221-223). So loading the source of an article whose baseline has no source makes it `modified`.
- **`reload`.** It does not check that index entries have a `name`.
- **Unloaded sources.** An article whose source was never loaded reaches `btoa` as `undefined`, which JavaScript turns into the text `"undefined"`. So such an article, when modified, is saved with the source text `undefined` (`Sync.SourceText`).
- **The dead `undefined` check.** The test at gh_blog.js:281 can never be reached with a missing match: `exec` returns `null`, and `[1]` throws first. Either way a file without the marker fails, which `Extract` models as `NoSourceFound`.
- **The template cache.** It is used only when it is a non-empty string (`this._articleTempl || …`).

## Model

| member | source | states |
|---|---|---|
| Articles.IsModified | src/gh_blog.js:68-72 | an article is modified iff it has no baseline or some monitored field differs from it, with tags compared element by element; it is unmodified iff the baseline equals the live fields |
| Articles.MonitoredArticle.Base | src/gh_blog.js:49-51 | `getBase`: the snapshot of the five monitored fields; the constructor and `Recover` state the fields through it |
| Articles.MonitoredArticle.Modified | src/gh_blog.js:68-72 | `modified` of an object is `IsModified` of its live fields and its baseline, so the `IsModified` and `ChangeOneField` rows apply to it |
| Articles.ChangeOneField | src/gh_blog.js:68-72 | changing one monitored field of an unmodified article makes it modified exactly when the new value differs from the baseline's, so changing it back clears `modified` |
| Articles.FieldNamed | src/gh_blog.js:79-80 | a property name is recognised exactly when it is one of the five monitored names |
| Articles.WithField | src/gh_blog.js:83 | copying one entry into a snapshot changes that entry to the given value and no other entry |
| Articles.NewArticle | src/gh_blog.js:30-47 | each monitored field is the given property or its default (`''`, `''`, the current time, `[]`, unloaded source); `renderedBrief` is kept unless `stripProps` |
| Articles.PropsOf | src/gh_blog.js:150-153 | the properties `new MonitoredArticle(o, true)` copies from an index entry: its five monitored fields and its rendered brief; `GetIndexMonitored` states that the new object's fields are the entry's |
| Articles.BriefOf | src/gh_blog.js:92-94 | the brief holds name, title, publish time, tags and rendered brief, and no source |
| Articles.MonitoredArticle.GetBrief | src/gh_blog.js:92-94 | `getBrief` of an object is `BriefOf` its monitored fields and its rendered brief, so it holds no source |
| Articles.MonitoredArticle.constructor | src/gh_blog.js:55-66 | the fields are those `new Article(o)` gives (`getBase` returns them); the baseline is a copy of them iff `saved`, so the new object is modified iff not `saved` |
| Articles.MonitoredArticle.SaveCurrent | src/gh_blog.js:74-76 | the baseline becomes a copy of the live fields, so the article is no longer modified |
| Articles.MonitoredArticle.SaveCurrentProp | src/gh_blog.js:78-84 | an unknown name fails with the baseline unchanged; a missing baseline fails; otherwise only baseline entry `p` changes, to the live value of `p`; live fields are unchanged |
| Articles.MonitoredArticle.Recover | src/gh_blog.js:86-90 | without a baseline it fails and leaves the fields unchanged; otherwise the five fields become the baseline, so the article is unmodified; baseline and rendered brief are unchanged |
| Base64.Btoa | src/gh_blog.js:270 | encoding succeeds iff every character is Latin-1, and its output uses only the base64 alphabet and `=` |
| Base64.EncodedLength | src/gh_blog.js:270 | the encoding of n bytes has 4·⌈n/3⌉ characters |
| Base64.DecodeEncode | src/gh_blog.js:270-283 | decoding the encoding of any byte string gives it back |
| Base64.Atob | src/gh_blog.js:283 | decoding succeeds iff the forgiving decode accepts the text, and yields Latin-1 characters |
| Base64.AtobBtoa | src/gh_blog.js:270-283 | `atob(btoa(s)) == s` for every Latin-1 string |
| EmbeddedSource.Embed | src/gh_blog.js:270 | the stored file: the marker comment around the base64 text, then the HTML body; `CapturedEmbed` and `ExtractEmbed` state what reading it back gives |
| EmbeddedSource.CloseFrom | src/gh_blog.js:280 | the lazy `(.*?)> -->` stops at the first `> -->` reached without crossing a line terminator, and finds none only when there is no such position |
| EmbeddedSource.MatchFrom | src/gh_blog.js:280 | the match found is the leftmost match with the shortest group, and none is found only when the text holds no match |
| EmbeddedSource.Captured | src/gh_blog.js:280 | there is no capture iff the text holds no match; otherwise the capture is the group of a match |
| EmbeddedSource.Extract | src/gh_blog.js:277-285 | an extracted source consists of Latin-1 characters |
| EmbeddedSource.ExtractWithoutMarker | src/gh_blog.js:280-282 | extraction fails with "no source found" exactly when the file contains no marker comment |
| EmbeddedSource.CloseAfterBase64 | src/gh_blog.js:280 | scanning from the start of written base64 text, the lazy match stops exactly at the `> -->` written after it |
| EmbeddedSource.CapturedEmbed | src/gh_blog.js:270-280 | the group captured from a stored file is exactly the base64 text written into it, whatever the HTML body holds |
| EmbeddedSource.ExtractEmbed | src/gh_blog.js:270-285 | extracting from the file stored for a Latin-1 source gives that source back |
| Sync.ClassifyLoadError | src/gh_blog.js:125-129 | status 401 is "authentication failed", 404 is "repository or branch not found", any other status is passed on |
| Sync.ReloadResult | src/gh_blog.js:155-168 | a missing marker file or index file fails with that path; the result succeeds iff both exist and the index parses, and is then one `Article` per parsed object, in order |
| Sync.LoadResult | src/gh_blog.js:216-224 | a missing article file fails with its path; otherwise the result is the extraction from the file, its error classed as a source error |
| Sync.SourceText | src/gh_blog.js:270 | the text `btoa` is given: a loaded source, or `"undefined"` for an unloaded one; `ArticleHtmlExtracts` states that this text is what is read back |
| Sync.UsedTemplate | src/gh_blog.js:265 | the template used: the cached one when it is a non-empty string, else the result of reading the template file; `RenderArticleHtmls` states that it is cached |
| Sync.ArticleHtml | src/gh_blog.js:268-271 | a stored file is built iff the source text is Latin-1, else the error is an invalid character |
| Sync.ArticleHtmlExtracts | src/gh_blog.js:268-285 | the source read back from a stored file is the source text it was built from |
| Sync.Modifieds | src/gh_blog.js:232 | the modified entries, in order; `ModifiedsMembers` and `ModifiedsAppend` state its properties |
| Sync.ModifiedsMembers | src/gh_blog.js:232 | the filter keeps an entry iff it is one of the given entries and is modified |
| Sync.ModifiedsAppend | src/gh_blog.js:232 | the filter keeps input order: it distributes over concatenation |
| Sync.SavedBrief | src/gh_blog.js:232-269 | the rendered brief an entry carries after a save: the marker's for a modified entry, its own otherwise; `IndexBriefs` and `SavedIndex` state where it is written |
| Sync.IndexBriefs | src/gh_blog.js:240-245 | the index file holds one brief per given article, modified or not, in order; a modified article carries its new rendered brief |
| Sync.SavedIndex | src/gh_blog.js:250-255 | built with `NewArticle` in its `stripProps` mode, then the rendered brief copied: the new index holds one entry per given article, in order, with exactly its monitored fields (source included) and its rendered brief after saving |
| Sync.ArticleFiles | src/gh_blog.js:236-239 | the article files fail only with an invalid character, and otherwise number one per modified article |
| Sync.ArticleFilesSpec | src/gh_blog.js:236-239 | the article files are built iff every modified source is Latin-1, and then file k is `articles/<name>` of article k holding its stored file |
| Sync.DeltaSet | src/gh_blog.js:236-246 | the delta set is built iff the article files are, and is then the article files in order followed by exactly one `index.json` of all briefs |
| Sync.DeltaSetContents | src/gh_blog.js:232-246 | file k of the delta set belongs to a modified given article, is named `articles/<name>`, and gives its source back on extraction |
| Sync.Deltas | src/gh_blog.js:182-189 | every file becomes a blob tree entry with mode `100644`, same path and content, in order |
| Sync.PushResult | src/gh_blog.js:191-208 | the push succeeds iff the tree (on the head tree), the commit (on the head commit) and the non-forced branch update all succeed; the new head is that tree and commit |
| Sync.SaveResult | src/gh_blog.js:231-257 | the outcome of `saveArticles` on an available store: the template, then the delta set, then the push; `SaveResultSteps`, `SaveResultSucceeds` and `RenderFailure` state its properties |
| Sync.SaveResultSteps | src/gh_blog.js:231-257 | a save succeeds only with a template, with every modified source Latin-1 and with a successful push of the delta set |
| Sync.SaveResultSucceeds | src/gh_blog.js:231-257 | conversely, with a template and every modified source Latin-1 the delta set is built, and the save succeeds exactly when its push does |
| Sync.FilterModified | src/gh_blog.js:232 | the modified article objects, in order; `FilterModifiedMembers` and `FilterModifiedEntries` state its properties |
| Sync.FilterModifiedMembers | src/gh_blog.js:232 | the objects kept are given objects, and a given object is kept iff it is modified |
| Sync.FilterModifiedEntries | src/gh_blog.js:232 | the objects kept are, entry by entry, the entries the value-level filter keeps |
| Sync.FilesOf | src/gh_blog.js:236-239 | one file per object, in order: path `articles/<name>` and the object's stored `html` |
| Sync.ArticlesOf | src/gh_blog.js:250-255 | one index entry per object, in order: its monitored fields (source included) and its rendered brief, as `new Article(c, true)` then the `renderedBrief` copy give |
| Sync.BriefsOf | src/gh_blog.js:240-245 | the briefs `JSON.stringify` writes through the `getBrief` replacer: one per object, in order; `SavedFilesAre` states that they are the index briefs of the entries |
| Sync.FilesOfRendered | src/gh_blog.js:236-239 | once the modified objects are rendered, the files read off them are the article files of their entries |
| Sync.SavedFilesAre | src/gh_blog.js:236-255 | after rendering, the files and new index read off the objects are the delta set and saved index of the entries taken before rendering |
| Sync.RenderedWhere | src/gh_blog.js:232-234 | once the modified objects are rendered, every modified entry's rendering fields hold the marker's output and the stored file of its fields |
| Sync.RejectedNotBefore | src/gh_blog.js:268-270 | an object whose source `btoa` rejects cannot occur earlier in the list among objects already rendered, since those hold stored files |
| Sync.RenderFailure | src/gh_blog.js:234-271 | a render that fails for want of the template, or on a non-Latin-1 source, fails the save with that error |
| Sync.GhBlog.constructor | src/gh_blog.js:98-109 | a new store has the given branch and head, no cached template and no index, so it is unavailable |
| Sync.GhBlog.Load | src/gh_blog.js:111-139 | a failed branch lookup gives the classified error; otherwise the store is on the branch head and holds the reloaded index, or none when reloading fails, which does not fail the load |
| Sync.GhBlog.Available | src/gh_blog.js:141-143 | `available` holds iff an index is loaded; `CheckAvailable` and every operation that needs the index state their failure through it |
| Sync.GhBlog.CheckAvailable | src/gh_blog.js:141-148 | passes iff the index is present, else fails as unavailable |
| Sync.GhBlog.GetIndexMonitored | src/gh_blog.js:150-153 | fails iff unavailable; otherwise gives one fresh monitored article per index entry, in order, no two the same object, with that entry's fields, its baseline taken and not modified, nothing rendered and not flagged `removed` |
| Sync.GhBlog.Reload | src/gh_blog.js:155-168 | the result and new index are `ReloadResult`'s; any failure leaves the store unavailable |
| Sync.GhBlog.DoInit | src/gh_blog.js:171-173 | the initial files are pushed with message `init`, as in `_writeFiles` |
| Sync.GhBlog.WriteFiles | src/gh_blog.js:181-214 | succeeds iff `PushResult` does, and only then moves both head shas to the new commit and tree; on any failure both are unchanged |
| Sync.GhBlog.LoadArticle | src/gh_blog.js:216-225 | fails when unavailable; otherwise its result is `LoadResult`'s and a success sets the article's source; a failure leaves it; the baseline is never touched |
| Sync.GhBlog.RenderArticle | src/gh_blog.js:268-272 | the marker's output is stored in every outcome; it succeeds iff the source text is Latin-1, and then `html` is the stored file of the article's fields; on a rejection `html` is unchanged |
| Sync.GhBlog.RenderAll | src/gh_blog.js:268-272 | succeeds iff every source is Latin-1, and then every article holds the marker's output and its stored file; on a rejection at position `stop`, the articles before it are rendered, the rejected one holds only the marker's output with `html` unchanged, and the later objects not met before are untouched |
| Sync.GhBlog.RenderStep | src/gh_blog.js:268-272 | one pass of the loop: the article at `i` is rendered or rejected as `RenderAll` states, and every object not yet met keeps its rendering fields |
| Sync.GhBlog.RenderArticleHtmls | src/gh_blog.js:261-275 | the template is the cached one unless it is empty, else the template file, and is cached; it fails if the file is missing, and then touches no article; it fails with an invalid character iff some source is not Latin-1, leaving the articles as `RenderAll` states for a rejection; success renders every article |
| Sync.GhBlog.SaveArticles | src/gh_blog.js:227-259 | fails when unavailable; otherwise the result and new head are `SaveResult`'s on the articles as they were; success replaces the index by `SavedIndex`; failure leaves index and head unchanged; the template is cached whenever one was found; unmodified objects keep their rendering fields in every outcome; when unavailable or without a template no object's rendering fields change; after success or a failed push every modified object holds the marker's output and its stored file |
| Sync.GhBlog.SaveAvailable | src/gh_blog.js:232-258 | the steps of `saveArticles` for an available store, with the same outcome, head, index, template and rendering fields, stated against the entries, rendering fields and template it starts with |
| Sync.GhBlog.RenderSelected | src/gh_blog.js:232-234 | picks the modified objects and renders them: fails without a template touching nothing, or with an invalid character when some modified source is not Latin-1; unmodified objects are never touched; success renders every modified object |
| Sync.GhBlog.FinishSave | src/gh_blog.js:234-257 | a failed render fails the save with `SaveResult`'s error; otherwise the rendered files are committed as `CommitRendered` states; no article object changes |
| Sync.GhBlog.RenderModified | src/gh_blog.js:232-234 | rendering the modified objects fails as `RenderFailure` needs; only the modified objects can change; without a template none changes; on a rejection they are left as `RenderAll` states; success leaves the monitored fields of all objects and the briefs of unmodified ones unchanged, and every modified one rendered |
| Sync.GhBlog.CommitRendered | src/gh_blog.js:235-257 | the files read off the rendered objects are pushed; the result is `SaveResult`'s, and only a successful push replaces the index; no article object changes |

## Left out

- The GitHub client and HTTP transport (gh_blog.js:112-118, 176-178, 191-207). The four remote calls are functions passed in. `atob` of the API's base64 response is folded into `getContents`.
- Promise chaining, asynchrony and `console` logging. Each operation is a sequence of steps with an explicit failure result.
- `JSON.parse` and `JSON.stringify`. They are functions passed in. Parsing yields a list of property records; the JSON grammar is outside the model.
- Properties other than the monitored fields and `renderedBrief`. `Object.assign` copies any extra properties of parsed index objects; the model drops them.
- `Mustache.render` and the injected `marker`. They are uninterpreted functions of the article's monitored fields. The model does not cover a marker that changes other properties of the object.
- `new Date().toISOString()`. It is the parameter `now`.
- `btoa`'s exception on a non-Latin-1 character. It is modelled as a failure result, not as a restriction on inputs.
- src/app.js (the user interface) is not part of this model.
- Sync.GhBlog.SaveArticles: that baselines and monitored fields are unchanged follows only from the `modifies` clause. When a modified source is rejected, it does not state which modified objects were rendered before the rejection; `RenderModified` states this over the list of modified objects.
- Sync.GhBlog.SaveAvailable: when a modified source is rejected, it does not state which modified objects were rendered before the rejection, as for `SaveArticles`.
- Sync.GhBlog.RenderSelected: when a modified source is rejected, it does not state which modified objects were rendered before the rejection, as for `SaveArticles`.
- Sync.GhBlog.GetIndexMonitored: the source hands each index entry's `tags` array to the new object by reference (gh_blog.js:45-46, 152). So pushing a tag onto a monitored article also changes the loaded index without a save. The model copies the tags by value and does not capture that aliasing.
- Sync.SavedIndex: after a save, the new index shares each object's `tags` array by reference (gh_blog.js:252). Later in-place tag edits reach the index without a save. The model copies the tags by value.
