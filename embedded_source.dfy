/** The embedded-source file format: a stored article file is
    `<!-- SOURCE<` + btoa(source) + `> -->` + rendered HTML, and the source
    is recovered from the first match of the regular expression
    `/<!-- SOURCE<(.*?)> -->/` followed by `atob` of the captured group. */
module EmbeddedSource {
  import opened Wrappers
  import Base64

  const SourceOpen: string := "<!-- SOURCE<"
  const SourceClose: string := "> -->"

  datatype ExtractError =
    | NoSourceFound     // the regular expression does not match the file
    | InvalidBase64     // `atob` rejects the captured text

  /** The characters that `.` does not match in a JavaScript regular
      expression without the `s` flag. */
  predicate IsLineTerminator(c: char) {
    c == '\n' || c == '\r' || c == '\U{2028}' || c == '\U{2029}'
  }

  /** `p` occurs in `t` at position `i`. */
  predicate At(t: string, i: nat, p: string) {
    i + |p| <= |t| && t[i..i + |p|] == p
  }

  predicate NoLineTerminator(t: string, i: nat, j: nat)
    requires i <= j <= |t|
  {
    forall k | i <= k < j :: !IsLineTerminator(t[k])
  }

  /** The pattern matches `t` from position `i` with the group ending at `k`:
      the opening text at `i`, then characters other than line terminators,
      then the closing text at `k`. */
  predicate IsMatch(t: string, i: nat, k: nat) {
    && At(t, i, SourceOpen)
    && i + |SourceOpen| <= k
    && At(t, k, SourceClose)
    && NoLineTerminator(t, i + |SourceOpen|, k)
  }

  /** The lazy `(.*?)> -->` tried from position `j`: the first position at
      which the closing text appears before any line terminator. */
  function CloseFrom(t: string, j: nat): (r: Option<nat>)
    requires j <= |t|
    ensures r.Some? ==> j <= r.value && At(t, r.value, SourceClose) && NoLineTerminator(t, j, r.value)
    ensures r.Some? ==> forall k | j <= k < r.value :: !At(t, k, SourceClose)
    ensures r.None? ==> forall k | j <= k <= |t| && NoLineTerminator(t, j, k) :: !At(t, k, SourceClose)
    decreases |t| - j
  {
    if j == |t| then None
    else if At(t, j, SourceClose) then Some(j)
    else if IsLineTerminator(t[j]) then None
    else CloseFrom(t, j + 1)
  }

  /** The leftmost match that starts at or after `i`: start and group end. */
  function MatchFrom(t: string, i: nat): (r: Option<(nat, nat)>)
    requires i <= |t|
    ensures r.Some? ==> i <= r.value.0 && IsMatch(t, r.value.0, r.value.1)
    ensures r.Some? ==> forall k | r.value.0 + |SourceOpen| <= k < r.value.1 :: !IsMatch(t, r.value.0, k)
    ensures r.Some? ==> forall s: nat, k: nat | i <= s < r.value.0 :: !IsMatch(t, s, k)
    ensures r.None? ==> forall s: nat, k: nat | i <= s :: !IsMatch(t, s, k)
    decreases |t| - i
  {
    if i + |SourceOpen| > |t| then
      None
    else if At(t, i, SourceOpen) && CloseFrom(t, i + |SourceOpen|).Some? then
      Some((i, CloseFrom(t, i + |SourceOpen|).value))
    else
      MatchFrom(t, i + 1)
  }

  /** The text captured by `(.*?)` in the first match, if there is one. */
  function Captured(t: string): (r: Option<string>)
    ensures r.None? <==> forall s: nat, k: nat :: !IsMatch(t, s, k)
    ensures r.Some? ==> exists s: nat, k: nat :: IsMatch(t, s, k) && r.value == t[s + |SourceOpen|..k]
  {
    match MatchFrom(t, 0)
    case None => None
    case Some((s, k)) => Some(t[s + |SourceOpen|..k])
  }

  /** `_extractArticleSource`: `atob` of the captured group. */
  function Extract(html: string): (r: Result<string, ExtractError>)
    ensures r.Success? ==> Base64.IsLatin1(r.value)
  {
    match Captured(html)
    case None => Failure(NoSourceFound)
    case Some(raw) =>
      match Base64.Atob(raw)
      case None => Failure(InvalidBase64)
      case Some(source) => Success(source)
  }

  /** Extraction fails for want of a match exactly when the file holds no
      marker comment, whatever else it contains. */
  lemma ExtractWithoutMarker(html: string)
    ensures Extract(html) == Failure(NoSourceFound) <==> forall s: nat, k: nat :: !IsMatch(html, s, k)
  {
    match Captured(html)
    case None =>
    case Some(raw) =>
      var s: nat, k: nat :| IsMatch(html, s, k) && raw == html[s + |SourceOpen|..k];
  }

  /** The stored form of a file: the base64 text in the marker comment,
      then the rendered body. */
  function Embed(b64: string, body: string): string {
    SourceOpen + b64 + SourceClose + body
  }

  /** The closing text starts with `>`, which base64 never produces. */
  lemma {:induction false} CloseAfterBase64(t: string, j: nat, b64: string)
    requires j + |b64| + |SourceClose| <= |t|
    requires t[j..j + |b64|] == b64 && At(t, j + |b64|, SourceClose)
    requires forall i | 0 <= i < |b64| :: Base64.IsAlphabetChar(b64[i]) || b64[i] == '='
    ensures CloseFrom(t, j) == Some(j + |b64|)
    decreases |b64|
  {
    if b64 != [] {
      assert t[j] == b64[0];
      assert !At(t, j, SourceClose) by { assert t[j] != SourceClose[0]; }
      assert t[j + 1..j + 1 + |b64[1..]|] == b64[1..];
      CloseAfterBase64(t, j + 1, b64[1..]);
    }
  }

  /** The group of the first match in an embedded file is exactly the
      base64 text written into it, whatever the body holds. */
  lemma CapturedEmbed(b64: string, body: string)
    requires forall i | 0 <= i < |b64| :: Base64.IsAlphabetChar(b64[i]) || b64[i] == '='
    ensures Captured(Embed(b64, body)) == Some(b64)
  {
    var t := Embed(b64, body);
    var n := |SourceOpen|;
    assert t[..n] == SourceOpen;
    assert t[n..n + |b64|] == b64;
    assert t[n + |b64|..n + |b64| + |SourceClose|] == SourceClose;
    CloseAfterBase64(t, n, b64);
    assert MatchFrom(t, 0) == Some((0, n + |b64|));
  }

  /** Extracting from the file written for a Latin-1 source gives the
      source back: `_extractArticleSource` inverts the header that
      `_renderArticleHtmls` writes. */
  lemma ExtractEmbed(source: string, body: string)
    requires Base64.IsLatin1(source)
    ensures Base64.Btoa(source).Some?
    ensures Extract(Embed(Base64.Btoa(source).value, body)) == Success(source)
  {
    Base64.AtobBtoa(source);
    CapturedEmbed(Base64.Btoa(source).value, body);
  }
}
