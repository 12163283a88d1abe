/** Articles and their change tracking: the plain `Article` record kept in
    the index, and `MonitoredArticle`, an article whose five monitored
    fields are compared with a baseline snapshot (`lastVersion`). */
module Articles {
  import opened Wrappers

  /** The five monitored fields (`_baseProps`); `source` is `None` while
      the article body has not been loaded (`undefined`). */
  datatype Snapshot = Snapshot(
    name: string,
    title: string,
    isoPubtime: string,
    tags: seq<string>,
    source: Option<string>)

  /** The properties an article is built from; a missing property is `None`
      and takes its default. */
  datatype Props = Props(
    name: Option<string>,
    title: Option<string>,
    isoPubtime: Option<string>,
    tags: Option<seq<string>>,
    source: Option<string>,
    renderedBrief: Option<string>)

  /** An index entry: the monitored fields and the rendered brief. */
  datatype Article = Article(base: Snapshot, renderedBrief: Option<string>)

  /** An entry of the index file: every field but `source`. */
  datatype Brief = Brief(
    name: string,
    title: string,
    isoPubtime: string,
    tags: seq<string>,
    renderedBrief: Option<string>)

  /** The monitored property names, in declaration order. */
  datatype Field = Name | Title | IsoPubtime | Tags | Source

  datatype Value = Text(text: string) | TagList(tags: seq<string>) | MaybeText(source: Option<string>)

  datatype TrackError =
    | InvalidMonitoredProperty   // `saveCurrentProp` of a name that is not monitored
    | NoSavedVersion             // `saveCurrentProp` or `recover` without a baseline

  function FieldName(f: Field): string {
    match f
    case Name => "name"
    case Title => "title"
    case IsoPubtime => "isoPubtime"
    case Tags => "tags"
    case Source => "source"
  }

  /** The monitored field called `p`, if `p` is one (`_baseProps.indexOf`). */
  function FieldNamed(p: string): (r: Option<Field>)
    ensures r.Some? ==> FieldName(r.value) == p
    ensures r.None? ==> forall f: Field :: FieldName(f) != p
  {
    if p == "name" then Some(Name)
    else if p == "title" then Some(Title)
    else if p == "isoPubtime" then Some(IsoPubtime)
    else if p == "tags" then Some(Tags)
    else if p == "source" then Some(Source)
    else None
  }

  function Get(s: Snapshot, f: Field): Value {
    match f
    case Name => Text(s.name)
    case Title => Text(s.title)
    case IsoPubtime => Text(s.isoPubtime)
    case Tags => TagList(s.tags)
    case Source => MaybeText(s.source)
  }

  /** `s` with field `f` copied from `from` (`lastVersion[prop] = this[prop]`). */
  function WithField(s: Snapshot, f: Field, from: Snapshot): (r: Snapshot)
    ensures Get(r, f) == Get(from, f)
    ensures forall g: Field :: g != f ==> Get(r, g) == Get(s, g)
  {
    match f
    case Name => s.(name := from.name)
    case Title => s.(title := from.title)
    case IsoPubtime => s.(isoPubtime := from.isoPubtime)
    case Tags => s.(tags := from.tags)
    case Source => s.(source := from.source)
  }

  /** Two tag lists are equal element by element (`_.isEqual` on arrays). */
  predicate SameTags(x: seq<string>, y: seq<string>) {
    |x| == |y| && forall i | 0 <= i < |x| :: x[i] == y[i]
  }

  /** Some monitored field of `a` differs from that of `b`. */
  predicate Differs(a: Snapshot, b: Snapshot) {
    || a.name != b.name
    || a.title != b.title
    || a.isoPubtime != b.isoPubtime
    || !SameTags(a.tags, b.tags)
    || a.source != b.source
  }

  /** `modified`: there is no baseline, or the live fields are not deeply
      equal to it. */
  function IsModified(current: Snapshot, lastVersion: Option<Snapshot>): (m: bool)
    ensures m <==> lastVersion.None? || Differs(current, lastVersion.value)
    ensures !m <==> lastVersion == Some(current)
  {
    lastVersion.None? || current != lastVersion.value
  }

  /** A snapshot is determined by its five fields. */
  lemma SnapshotByFields(a: Snapshot, b: Snapshot)
    requires forall f: Field :: Get(a, f) == Get(b, f)
    ensures a == b
  {
    assert Get(a, Name) == Get(b, Name);
    assert Get(a, Title) == Get(b, Title);
    assert Get(a, IsoPubtime) == Get(b, IsoPubtime);
    assert Get(a, Tags) == Get(b, Tags);
    assert Get(a, Source) == Get(b, Source);
  }

  /** Changing one monitored field away from the baseline makes the
      article modified, and setting it back to the baseline value makes it
      unmodified again. */
  lemma ChangeOneField(baseline: Snapshot, f: Field, edited: Snapshot)
    ensures IsModified(WithField(baseline, f, edited), Some(baseline)) <==> Get(edited, f) != Get(baseline, f)
  {
    var s := WithField(baseline, f, edited);
    if Get(edited, f) == Get(baseline, f) {
      SnapshotByFields(s, baseline);
    }
  }

  /** The `Article` constructor: the defaults `''`, `''`, the current time,
      `[]` and `undefined`, overridden by the given properties; with
      `stripProps` only the five monitored properties are taken. */
  function NewArticle(o: Props, stripProps: bool, now: string): (a: Article)
    ensures a.base.name == o.name.GetOr("") && a.base.title == o.title.GetOr("")
    ensures a.base.isoPubtime == o.isoPubtime.GetOr(now) && a.base.tags == o.tags.GetOr([])
    ensures a.base.source == o.source
    ensures a.renderedBrief == if stripProps then None else o.renderedBrief
  {
    Article(Snapshot(o.name.GetOr(""), o.title.GetOr(""), o.isoPubtime.GetOr(now), o.tags.GetOr([]), o.source),
            if stripProps then None else o.renderedBrief)
  }

  /** The properties of an index entry, as the monitored-article
      constructor copies them. */
  function PropsOf(a: Article): Props {
    Props(Some(a.base.name), Some(a.base.title), Some(a.base.isoPubtime), Some(a.base.tags),
          a.base.source, a.renderedBrief)
  }

  /** `getBrief`: the index-file projection, which never holds `source`. */
  function BriefOf(s: Snapshot, renderedBrief: Option<string>): (b: Brief)
    ensures b.name == s.name && b.title == s.title && b.isoPubtime == s.isoPubtime
    ensures b.tags == s.tags && b.renderedBrief == renderedBrief
  {
    Brief(s.name, s.title, s.isoPubtime, s.tags, renderedBrief)
  }

  /** The part of a monitored article that saving reads. */
  datatype Entry = Entry(base: Snapshot, lastVersion: Option<Snapshot>, renderedBrief: Option<string>)

  /** An article object with a baseline (`MonitoredArticle`, composed of
      the article fields and an optional snapshot rather than inheriting). */
  class MonitoredArticle {
    var name: string
    var title: string
    var isoPubtime: string
    var tags: seq<string>
    var source: Option<string>
    /** Set by the renderer (`marker`) when the article is saved. */
    var renderedBrief: Option<string>
    var rendered: Option<string>
    /** The stored file content built at save time. */
    var html: Option<string>
    /** Set by the caller to mark the article for deletion. */
    var removed: bool
    var lastVersion: Option<Snapshot>

    /** `getBase`: the monitored fields. */
    function Base(): Snapshot
      reads this`name, this`title, this`isoPubtime, this`tags, this`source
    {
      Snapshot(name, title, isoPubtime, tags, source)
    }

    function EntryOf(): Entry
      reads this`name, this`title, this`isoPubtime, this`tags, this`source, this`lastVersion, this`renderedBrief
    {
      Entry(Base(), lastVersion, renderedBrief)
    }

    predicate Modified()
      reads this`name, this`title, this`isoPubtime, this`tags, this`source, this`lastVersion
    {
      IsModified(Base(), lastVersion)
    }

    /** `getBrief`, on the object's own fields. */
    function GetBrief(): Brief
      reads this`name, this`title, this`isoPubtime, this`tags, this`source, this`renderedBrief
    {
      BriefOf(Base(), renderedBrief)
    }

    /** `new MonitoredArticle(o, saved)`: with `saved` the baseline is
        taken at once, otherwise there is none and the article counts as
        modified. */
    constructor (o: Props, saved: bool, now: string)
      ensures Article(Base(), renderedBrief) == NewArticle(o, false, now)
      ensures rendered == None && html == None && !removed
      ensures lastVersion == if saved then Some(Base()) else None
      ensures Modified() == !saved
    {
      name := o.name.GetOr("");
      title := o.title.GetOr("");
      isoPubtime := o.isoPubtime.GetOr(now);
      tags := o.tags.GetOr([]);
      source := o.source;
      renderedBrief := o.renderedBrief;
      rendered := None;
      html := None;
      removed := false;
      lastVersion := None;
      if saved {
        lastVersion := Some(Snapshot(name, title, isoPubtime, tags, source));
      }
    }

    /** `saveCurrent`: the baseline becomes a copy of the live fields. */
    method SaveCurrent()
      modifies this`lastVersion
      ensures lastVersion == Some(Base())
      ensures !Modified()
    {
      lastVersion := Some(Snapshot(name, title, isoPubtime, tags, source));
    }

    /** `saveCurrentProp(p)`: only baseline entry `p` takes the live value
        of `p`. */
    method SaveCurrentProp(p: string) returns (r: Outcome<TrackError>)
      modifies this`lastVersion
      ensures FieldNamed(p).None? ==> r == Fail(InvalidMonitoredProperty) && lastVersion == old(lastVersion)
      ensures FieldNamed(p).Some? && old(lastVersion).None? ==>
                r == Fail(NoSavedVersion) && lastVersion == None
      ensures FieldNamed(p).Some? && old(lastVersion).Some? ==>
                r == Pass && lastVersion == Some(WithField(old(lastVersion).value, FieldNamed(p).value, Base()))
    {
      var f := FieldNamed(p);
      if f.None? {
        return Fail(InvalidMonitoredProperty);
      }
      if lastVersion.None? {
        return Fail(NoSavedVersion);
      }
      lastVersion := Some(WithField(lastVersion.value, f.value, Base()));
      r := Pass;
    }

    /** `recover`: the five monitored fields are set back to the baseline. */
    method Recover() returns (r: Outcome<TrackError>)
      modifies this`name, this`title, this`isoPubtime, this`tags, this`source
      ensures old(lastVersion).None? ==> r == Fail(NoSavedVersion) && Base() == old(Base())
      ensures old(lastVersion).Some? ==> r == Pass && Base() == old(lastVersion).value
      ensures old(lastVersion).Some? ==> !Modified()
      ensures renderedBrief == old(renderedBrief) && lastVersion == old(lastVersion)
    {
      if lastVersion.None? {
        return Fail(NoSavedVersion);
      }
      var v := lastVersion.value;
      name, title, isoPubtime, tags, source := v.name, v.title, v.isoPubtime, v.tags, v.source;
      r := Pass;
    }
  }

  /** The entries of a sequence of article objects, in order. */
  function Entries(all: seq<MonitoredArticle>): (es: seq<Entry>)
    reads all
    ensures |es| == |all| && forall k | 0 <= k < |all| :: es[k] == all[k].EntryOf()
  {
    if all == [] then [] else [all[0].EntryOf()] + Entries(all[1..])
  }
}
