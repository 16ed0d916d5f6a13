/** The image codec of the inference handler: the MIME type is read from a
    data URL with the pattern  /[^:]\w+\/[\w-+\d.]+(?=;|,)/, the payload is
    `split(';base64,').pop()`, and the endpoint's byte body is turned into a
    string by `String.fromCharCode.apply(null, Body)`. */
module Codec {
  import opened Wrappers

  newtype byte = x: int | 0 <= x < 256

  /** `\w` */
  predicate IsWordChar(c: char) {
    ('a' <= c <= 'z') || ('A' <= c <= 'Z') || ('0' <= c <= '9') || c == '_'
  }

  /** `[\w-+\d.]`: without the `u` flag the `-` after a class escape is literal. */
  predicate IsSubtypeChar(c: char) {
    IsWordChar(c) || c == '-' || c == '+' || c == '.'
  }

  predicate AllWord(s: string, i: nat, j: nat)
    requires i <= j <= |s|
  {
    forall t :: i <= t < j ==> IsWordChar(s[t])
  }

  predicate AllSubtype(s: string, i: nat, j: nat)
    requires i <= j <= |s|
  {
    forall t :: i <= t < j ==> IsSubtypeChar(s[t])
  }

  /** The pattern matches `s[p..m]`: one character other than `:`, one or more
      word characters, `/`, one or more subtype characters, and then `;` or
      `,` (looked at, not consumed). This is the regular expression's meaning
      with every backtracking choice allowed. */
  ghost predicate RegexMatchesAt(s: string, p: nat, m: nat) {
    && p < m < |s|
    && s[p] != ':'
    && (s[m] == ';' || s[m] == ',')
    && exists k :: p + 1 < k && k + 1 < m && s[k] == '/' && AllWord(s, p + 1, k) && AllSubtype(s, k + 1, m)
  }

  /** End of the longest run of word characters from `i`. */
  function WordRunEnd(s: string, i: nat): (k: nat)
    requires i <= |s|
    ensures i <= k <= |s| && AllWord(s, i, k)
    ensures k == |s| || !IsWordChar(s[k])
    decreases |s| - i
  {
    if i < |s| && IsWordChar(s[i]) then WordRunEnd(s, i + 1) else i
  }

  /** End of the longest run of subtype characters from `i`. */
  function SubtypeRunEnd(s: string, i: nat): (k: nat)
    requires i <= |s|
    ensures i <= k <= |s| && AllSubtype(s, i, k)
    ensures k == |s| || !IsSubtypeChar(s[k])
    decreases |s| - i
  {
    if i < |s| && IsSubtypeChar(s[i]) then SubtypeRunEnd(s, i + 1) else i
  }

  /** Two runs of the same class that both stop at a character outside it end
      at the same place. */
  lemma WordRunUnique(s: string, i: nat, k: nat)
    requires i <= k < |s| && AllWord(s, i, k) && !IsWordChar(s[k])
    ensures WordRunEnd(s, i) == k
  {
  }

  lemma SubtypeRunUnique(s: string, i: nat, k: nat)
    requires i <= k < |s| && AllSubtype(s, i, k) && !IsSubtypeChar(s[k])
    ensures SubtypeRunEnd(s, i) == k
  {
  }

  /** The pattern tried at position `p`. Greedy backtracking can only succeed
      with the longest runs, because `/` is not a word character and `;`, `,`
      are not subtype characters; so the attempt is a single pass. */
  function MatchEndAt(s: string, p: nat): (r: Option<nat>)
    ensures r.Some? ==> RegexMatchesAt(s, p, r.value)
    ensures r.None? ==> forall m: nat :: !RegexMatchesAt(s, p, m)
  {
    if p < |s| && s[p] != ':' then
      var k := WordRunEnd(s, p + 1);
      if k > p + 1 && k < |s| && s[k] == '/' then
        var m := SubtypeRunEnd(s, k + 1);
        if m > k + 1 && m < |s| && (s[m] == ';' || s[m] == ',') then Some(m)
        else NoMatchAfterSlash(s, p, k); None
      else NoMatchAtRun(s, p); None
    else None
  }

  /** Every match at `p` is the maximal one: its word run is the longest
      run after `p`, stopped by the `/`, and its subtype run is the longest
      run after the `/`. */
  lemma MatchShape(s: string, p: nat)
    ensures forall m: nat :: RegexMatchesAt(s, p, m) ==>
      && WordRunEnd(s, p + 1) > p + 1 && WordRunEnd(s, p + 1) < |s| && s[WordRunEnd(s, p + 1)] == '/'
      && SubtypeRunEnd(s, WordRunEnd(s, p + 1) + 1) == m
  {
    forall m: nat | RegexMatchesAt(s, p, m)
      ensures && WordRunEnd(s, p + 1) > p + 1 && WordRunEnd(s, p + 1) < |s| && s[WordRunEnd(s, p + 1)] == '/'
              && SubtypeRunEnd(s, WordRunEnd(s, p + 1) + 1) == m
    {
      var k :| p + 1 < k && k + 1 < m && s[k] == '/' && AllWord(s, p + 1, k) && AllSubtype(s, k + 1, m);
      WordRunUnique(s, p + 1, k);
      SubtypeRunUnique(s, k + 1, m);
    }
  }

  lemma NoMatchAtRun(s: string, p: nat)
    requires p < |s| && s[p] != ':'
    requires var k := WordRunEnd(s, p + 1); !(k > p + 1 && k < |s| && s[k] == '/')
    ensures forall m: nat :: !RegexMatchesAt(s, p, m)
  {
    MatchShape(s, p);
  }

  lemma NoMatchAfterSlash(s: string, p: nat, k: nat)
    requires p < |s| && s[p] != ':'
    requires k == WordRunEnd(s, p + 1) && k > p + 1 && k < |s| && s[k] == '/'
    requires var m := SubtypeRunEnd(s, k + 1); !(m > k + 1 && m < |s| && (s[m] == ';' || s[m] == ','))
    ensures forall m: nat :: !RegexMatchesAt(s, p, m)
  {
    MatchShape(s, p);
  }

  /** At a given start the pattern matches at most one way. */
  lemma RegexMatchUnique(s: string, p: nat, m1: nat, m2: nat)
    requires RegexMatchesAt(s, p, m1) && RegexMatchesAt(s, p, m2)
    ensures m1 == m2
  {
    MatchShape(s, p);
  }

  /** `String.prototype.match` without the `g` flag: the leftmost start from
      `p` on at which the pattern matches. */
  function FindMatch(s: string, p: nat): (r: Option<(nat, nat)>)
    requires p <= |s|
    ensures r.Some? ==> p <= r.value.0 && RegexMatchesAt(s, r.value.0, r.value.1)
    decreases |s| - p
  {
    if p == |s| then None
    else match MatchEndAt(s, p)
      case Some(m) => Some((p, m))
      case None => FindMatch(s, p + 1)
  }

  /** The match found is the leftmost one, and none is found only when the
      pattern matches nowhere from `p` on. */
  lemma {:induction false} FindMatchLeftmost(s: string, p: nat)
    requires p <= |s|
    ensures FindMatch(s, p).Some? ==> forall q: nat, m: nat :: p <= q < FindMatch(s, p).value.0 ==> !RegexMatchesAt(s, q, m)
    ensures FindMatch(s, p).None? ==> forall q: nat, m: nat :: p <= q ==> !RegexMatchesAt(s, q, m)
    decreases |s| - p
  {
    if p < |s| && MatchEndAt(s, p).None? {
      FindMatchLeftmost(s, p + 1);
    }
  }

  /** What `null[0]` throws on Node.js 16 and later. */
  const NullIndexMessage: string := "Cannot read properties of null (reading '0')"

  /** `imageBase64.match(...)[0]`: the text of the leftmost match, or the
      TypeError thrown by indexing `null` when there is none. */
  function MimeType(dataUrl: string): (r: Result<string, string>)
    ensures r.Err? <==> forall p: nat, m: nat :: !RegexMatchesAt(dataUrl, p, m)
    ensures r.Err? ==> r.error == NullIndexMessage
    ensures r.Ok? ==> exists p: nat, m: nat ::
      && p <= m <= |dataUrl| && RegexMatchesAt(dataUrl, p, m) && r.value == dataUrl[p..m]
      && forall q: nat, m': nat :: q < p ==> !RegexMatchesAt(dataUrl, q, m')
  {
    FindMatchLeftmost(dataUrl, 0);
    match FindMatch(dataUrl, 0)
    case None => Err(NullIndexMessage)
    case Some((p, m)) => Ok(dataUrl[p..m])
  }

  const Base64Marker: string := ";base64,"

  /** The data URL that `FileReader.readAsDataURL` produces. */
  function DataUrl(mime: string, payload: string): (r: string) {
    "data:" + mime + Base64Marker + payload
  }

  /** Starts with no match are skipped by the leftmost search. */
  lemma {:induction false} FindMatchSkips(s: string, p: nat, q: nat)
    requires p <= q <= |s|
    requires forall x :: p <= x < q ==> MatchEndAt(s, x).None?
    ensures FindMatch(s, p) == FindMatch(s, q)
    decreases q - p
  {
    if p < q {
      assert MatchEndAt(s, p).None?;
      assert FindMatch(s, p) == FindMatch(s, p + 1);
      FindMatchSkips(s, p + 1, q);
    }
  }

  /** The pattern at `p` with its word run ending at the `/` at `k` and its
      subtype run ending at the `;` or `,` at `m`. */
  lemma MatchEndAtRuns(s: string, p: nat, k: nat, m: nat)
    requires p + 1 < k && k + 1 < m < |s|
    requires s[p] != ':' && s[k] == '/' && (s[m] == ';' || s[m] == ',')
    requires AllWord(s, p + 1, k) && AllSubtype(s, k + 1, m)
    ensures MatchEndAt(s, p) == Some(m)
  {
    WordRunUnique(s, p + 1, k);
    SubtypeRunUnique(s, k + 1, m);
  }

  /** No match starts inside the `data:` scheme. */
  lemma NoMatchInScheme(s: string, q: nat)
    requires |s| >= 5 && s[..5] == "data:" && q < 5
    ensures MatchEndAt(s, q).None?
  {
    assert s[0] == 'd' && s[1] == 'a' && s[2] == 't' && s[3] == 'a' && s[4] == ':';
    if q < 4 {
      WordRunUnique(s, q + 1, 4);
    }
  }

  /** Where the parts of a data URL sit. */
  lemma DataUrlLayout(mime: string, payload: string)
    ensures var s := DataUrl(mime, payload); var m := 5 + |mime|;
      && m < |s| && s[..5] == "data:" && s[5..m] == mime && s[m] == ';'
  {
    var s := DataUrl(mime, payload);
    assert s == "data:" + (mime + (Base64Marker + payload));
  }

  /** The MIME type is the match at `p` when no earlier position matches. */
  lemma MimeTypeAt(s: string, p: nat, k: nat, m: nat)
    requires p + 1 < k && k + 1 < m < |s|
    requires s[p] != ':' && s[k] == '/' && (s[m] == ';' || s[m] == ',')
    requires AllWord(s, p + 1, k) && AllSubtype(s, k + 1, m)
    requires forall q :: 0 <= q < p ==> MatchEndAt(s, q).None?
    ensures MimeType(s) == Ok(s[p..m])
  {
    MatchEndAtRuns(s, p, k, m);
    FindMatchSkips(s, 0, p);
  }

  /** For a type of at least two word characters and a subtype of subtype
      characters, the MIME type of the data URL is `type/subtype`. */
  lemma MimeTypeOfDataUrl(t: string, st: string, payload: string)
    requires |t| >= 2 && forall i :: 0 <= i < |t| ==> IsWordChar(t[i])
    requires |st| >= 1 && forall i :: 0 <= i < |st| ==> IsSubtypeChar(st[i])
    ensures MimeType(DataUrl(t + "/" + st, payload)) == Ok(t + "/" + st)
  {
    var mime := t + "/" + st;
    var s := DataUrl(mime, payload);
    var k := 5 + |t|;
    var m := k + 1 + |st|;
    assert s[5..m] == mime && s[m] == ';' && s[k] == '/' && s[5] == t[0] && s[..5] == "data:" by {
      DataUrlLayout(mime, payload);
    }
    assert AllWord(s, 6, k) by {
      forall i | 6 <= i < k ensures IsWordChar(s[i]) { assert s[i] == s[5..m][i - 5] == t[i - 5]; }
    }
    assert AllSubtype(s, k + 1, m) by {
      forall i | k + 1 <= i < m ensures IsSubtypeChar(s[i]) { assert s[i] == s[5..m][i - 5] == st[i - k - 1]; }
    }
    assert forall q :: 0 <= q < 5 ==> MatchEndAt(s, q).None? by {
      forall q | 0 <= q < 5 ensures MatchEndAt(s, q).None? {
        NoMatchInScheme(s, q);
      }
    }
    MimeTypeAt(s, 5, k, m);
  }

  /** Where the parts of `data:<x>-<w>/<st>;base64,...` sit. */
  lemma HyphenatedLayout(x: char, w: string, st: string, payload: string)
    requires IsWordChar(x)
    requires |w| >= 1 && forall i :: 0 <= i < |w| ==> IsWordChar(w[i])
    requires |st| >= 1 && forall i :: 0 <= i < |st| ==> IsSubtypeChar(st[i])
    ensures var s := DataUrl([x] + "-" + w + "/" + st, payload); var k := 7 + |w|; var m := k + 1 + |st|;
      && m < |s| && s[m] == ';' && s[5] == x && s[6] == '-' && s[k] == '/' && s[..5] == "data:"
      && AllWord(s, 7, k) && AllSubtype(s, k + 1, m) && s[6..m] == "-" + w + "/" + st
  {
    var mime := [x] + "-" + w + "/" + st;
    var s := DataUrl(mime, payload);
    var k := 7 + |w|;
    var m := k + 1 + |st|;
    assert mime[1..] == "-" + w + "/" + st by {
      assert mime == [x] + ("-" + w + "/" + st);
    }
    assert s[5..m] == mime && s[m] == ';' && s[..5] == "data:" by {
      DataUrlLayout(mime, payload);
    }
    assert s[6..m] == s[5..m][1..];
    assert AllWord(s, 7, k) by {
      forall i | 7 <= i < k ensures IsWordChar(s[i]) { assert s[i] == s[5..m][i - 5] == w[i - 7]; }
    }
    assert AllSubtype(s, k + 1, m) by {
      forall i | k + 1 <= i < m ensures IsSubtypeChar(s[i]) { assert s[i] == s[5..m][i - 5] == st[i - k - 1]; }
    }
  }

  /** In a `data:` URL whose type is a word character, `-` and a word run,
      the match starts at the `-`. */
  lemma HyphenatedMatch(s: string, k: nat, m: nat)
    requires 7 < k && k + 1 < m < |s| && s[..5] == "data:"
    requires IsWordChar(s[5]) && s[6] == '-' && s[k] == '/' && s[m] == ';'
    requires AllWord(s, 7, k) && AllSubtype(s, k + 1, m)
    ensures MimeType(s) == Ok(s[6..m])
  {
    forall q | 0 <= q < 6 ensures MatchEndAt(s, q).None? {
      if q < 5 {
        NoMatchInScheme(s, q);
      } else {
        WordRunUnique(s, 6, 6);
      }
    }
    MimeTypeAt(s, 6, k, m);
  }

  /** A type whose second character is a `-` loses its first character: `[^:]`
      takes the `-` and `\w+` the word after it. So `x-world/x-vrml` is read
      as `-world/x-vrml`. */
  lemma MimeTypeOfHyphenatedType(x: char, w: string, st: string, payload: string)
    requires IsWordChar(x)
    requires |w| >= 1 && forall i :: 0 <= i < |w| ==> IsWordChar(w[i])
    requires |st| >= 1 && forall i :: 0 <= i < |st| ==> IsSubtypeChar(st[i])
    ensures MimeType(DataUrl([x] + "-" + w + "/" + st, payload)) == Ok("-" + w + "/" + st)
  {
    var s := DataUrl([x] + "-" + w + "/" + st, payload);
    var k := 7 + |w|;
    var m := k + 1 + |st|;
    HyphenatedLayout(x, w, st, payload);
    HyphenatedMatch(s, k, m);
    assert MimeType(s) == Ok(s[6..m]);
    assert s[6..m] == "-" + w + "/" + st;
  }

  predicate OccursAt(s: string, sep: string, i: nat) {
    i + |sep| <= |s| && s[i..i + |sep|] == sep
  }

  ghost predicate Contains(s: string, sep: string) {
    exists j: nat :: OccursAt(s, sep, j)
  }

  /** `sep[k..]` sits in `s` at `i + k`, compared character by character as
      the search does. */
  predicate MatchesFrom(s: string, sep: string, i: nat, k: nat)
    requires i + |sep| <= |s| && k <= |sep|
    decreases |sep| - k
  {
    k == |sep| || (s[i + k] == sep[k] && MatchesFrom(s, sep, i, k + 1))
  }

  lemma {:induction false} MatchesFromSlice(s: string, sep: string, i: nat, k: nat)
    requires i + |sep| <= |s| && k <= |sep|
    ensures MatchesFrom(s, sep, i, k) <==> s[i + k..i + |sep|] == sep[k..]
    decreases |sep| - k
  {
    if k < |sep| {
      MatchesFromSlice(s, sep, i, k + 1);
      var a, b := s[i + k..i + |sep|], sep[k..];
      assert a == [s[i + k]] + s[i + k + 1..i + |sep|];
      assert b == [sep[k]] + sep[k + 1..];
      if a == b {
        assert a[0] == b[0] && a[1..] == b[1..];
      }
    }
  }

  /** The first occurrence of `sep` in `s` at or after `i`. */
  function FindFrom(s: string, sep: string, i: nat): (r: Option<nat>)
    requires |sep| > 0 && i <= |s|
    ensures r.Some? ==> i <= r.value && r.value + |sep| <= |s|
    decreases |s| - i
  {
    if i + |sep| > |s| then None
    else if MatchesFrom(s, sep, i, 0) then Some(i)
    else FindFrom(s, sep, i + 1)
  }

  /** FindFrom finds the first occurrence at or after `i`, and finds none
      exactly when there is none. */
  lemma {:induction false} FindFromSpec(s: string, sep: string, i: nat)
    requires |sep| > 0 && i <= |s|
    ensures FindFrom(s, sep, i).Some? ==> OccursAt(s, sep, FindFrom(s, sep, i).value)
    ensures FindFrom(s, sep, i).Some? ==> forall j: nat :: i <= j < FindFrom(s, sep, i).value ==> !OccursAt(s, sep, j)
    ensures FindFrom(s, sep, i).None? ==> forall j: nat :: i <= j ==> !OccursAt(s, sep, j)
    decreases |s| - i
  {
    if i + |sep| <= |s| {
      MatchesFromSlice(s, sep, i, 0);
      assert sep[0..] == sep;
      if !MatchesFrom(s, sep, i, 0) {
        FindFromSpec(s, sep, i + 1);
      }
    }
  }

  function Join(pieces: seq<string>, sep: string): (r: string) {
    if |pieces| == 0 then ""
    else if |pieces| == 1 then pieces[0]
    else pieces[0] + sep + Join(pieces[1..], sep)
  }

  /** An occurrence inside s[a..b] is an occurrence in s. */
  lemma OccursInSlice(s: string, sep: string, a: nat, b: nat, j: nat)
    requires a <= b <= |s| && OccursAt(s[a..b], sep, j)
    ensures OccursAt(s, sep, a + j) && a + j + |sep| <= b
  {
    forall t | 0 <= t < |sep| ensures s[a + j + t] == sep[t] {
      assert s[a..b][j..j + |sep|][t] == sep[t];
    }
    assert s[a + j..a + j + |sep|] == sep;
  }

  /** Every occurrence inside s[a..b] is one in s, within [a, b). */
  lemma SliceOccurrences(s: string, sep: string, a: nat, b: nat)
    requires a <= b <= |s|
    ensures forall j: nat :: OccursAt(s[a..b], sep, j) ==> OccursAt(s, sep, a + j) && a + j + |sep| <= b
  {
    forall j: nat | OccursAt(s[a..b], sep, j) ensures OccursAt(s, sep, a + j) && a + j + |sep| <= b {
      OccursInSlice(s, sep, a, b, j);
    }
  }

  lemma OccursInSuffix(s: string, sep: string, a: nat, j: nat)
    requires a <= |s| && OccursAt(s[a..], sep, j)
    ensures OccursAt(s, sep, a + j)
  {
    assert s[a..] == s[a..|s|];
    OccursInSlice(s, sep, a, |s|, j);
  }

  /** `s.split(sep)` for a non-empty separator, scanning from `from`: the
      pieces between the occurrences found left to right. */
  function SplitFrom(s: string, sep: string, from: nat): (r: seq<string>)
    requires |sep| > 0 && from <= |s|
    ensures |r| >= 1
    decreases |s| - from
  {
    match FindFrom(s, sep, from)
    case None => [s[from..]]
    case Some(i) => [s[from..i]] + SplitFrom(s, sep, i + |sep|)
  }

  /** Joining the pieces again gives the scanned text back. */
  lemma {:induction false} SplitFromJoin(s: string, sep: string, from: nat)
    requires |sep| > 0 && from <= |s|
    ensures Join(SplitFrom(s, sep, from), sep) == s[from..]
    decreases |s| - from
  {
    match FindFrom(s, sep, from)
    case None =>
    case Some(i) =>
      var rest := SplitFrom(s, sep, i + |sep|);
      SplitFromJoin(s, sep, i + |sep|);
      FindFromSpec(s, sep, from);
      assert ([s[from..i]] + rest)[1..] == rest;
      assert s[from..] == s[from..i] + sep + s[i + |sep|..];
  }

  /** No piece contains the separator. */
  lemma {:induction false} SplitFromPieces(s: string, sep: string, from: nat)
    requires |sep| > 0 && from <= |s|
    ensures forall k: nat, j: nat :: k < |SplitFrom(s, sep, from)| ==> !OccursAt(SplitFrom(s, sep, from)[k], sep, j)
    decreases |s| - from
  {
    var r := SplitFrom(s, sep, from);
    FindFromSpec(s, sep, from);
    match FindFrom(s, sep, from)
    case None =>
      SuffixOccurrences(s, sep, from);
    case Some(i) =>
      var rest := SplitFrom(s, sep, i + |sep|);
      assert r == [s[from..i]] + rest;
      SplitFromPieces(s, sep, i + |sep|);
      SliceOccurrences(s, sep, from, i);
      forall k: nat, j: nat | k < |r| ensures !OccursAt(r[k], sep, j) {
        if k == 0 {
          assert r[0] == s[from..i];
        } else {
          assert r[k] == rest[k - 1];
        }
      }
  }

  /** Where the last piece of `s.split(sep)` starts, scanning from `from`. */
  function LastPieceStart(s: string, sep: string, from: nat): (k: nat)
    requires |sep| > 0 && from <= |s|
    ensures from <= k <= |s|
    decreases |s| - from
  {
    match FindFrom(s, sep, from)
    case None => from
    case Some(i) => LastPieceStart(s, sep, i + |sep|)
  }

  /** The split once no occurrence is left. */
  lemma SplitEnd(s: string, sep: string, from: nat)
    requires |sep| > 0 && from <= |s| && FindFrom(s, sep, from).None?
    ensures SplitFrom(s, sep, from) == [s[from..]]
    ensures LastPieceStart(s, sep, from) == from
  {
  }

  /** One step of the split past the occurrence at `i`. */
  lemma SplitStep(s: string, sep: string, from: nat, i: nat)
    requires |sep| > 0 && from <= |s| && FindFrom(s, sep, from) == Some(i)
    ensures i + |sep| <= |s|
    ensures SplitFrom(s, sep, from) == [s[from..i]] + SplitFrom(s, sep, i + |sep|)
    ensures var r, rest := SplitFrom(s, sep, from), SplitFrom(s, sep, i + |sep|); r[|r| - 1] == rest[|rest| - 1]
    ensures LastPieceStart(s, sep, from) == LastPieceStart(s, sep, i + |sep|)
  {
  }

  /** No occurrence starts at or after the last piece. */
  lemma {:induction false} LastPieceNoOccurrence(s: string, sep: string, from: nat)
    requires |sep| > 0 && from <= |s|
    ensures forall j: nat :: LastPieceStart(s, sep, from) <= j ==> !OccursAt(s, sep, j)
    decreases |s| - from
  {
    var f := FindFrom(s, sep, from);
    FindFromSpec(s, sep, from);
    if f.Some? {
      LastPieceNoOccurrence(s, sep, f.value + |sep|);
    }
  }

  /** Unless the last piece is the whole text, an occurrence ends right
      where it starts. */
  lemma {:induction false} LastPieceAfterOccurrence(s: string, sep: string, from: nat)
    requires |sep| > 0 && from <= |s|
    ensures LastPieceStart(s, sep, from) != from ==>
      from + |sep| <= LastPieceStart(s, sep, from) && OccursAt(s, sep, LastPieceStart(s, sep, from) - |sep|)
    decreases |s| - from
  {
    var f := FindFrom(s, sep, from);
    FindFromSpec(s, sep, from);
    if f.Some? {
      LastPieceAfterOccurrence(s, sep, f.value + |sep|);
    }
  }

  /** An occurrence in a suffix is an occurrence in the text. */
  lemma SuffixOccurrences(s: string, sep: string, k: nat)
    requires k <= |s|
    ensures forall j: nat :: OccursAt(s[k..], sep, j) ==> OccursAt(s, sep, k + j)
  {
    forall j: nat | OccursAt(s[k..], sep, j) ensures OccursAt(s, sep, k + j) {
      OccursInSuffix(s, sep, k, j);
    }
  }

  /** `s.split(sep).pop()`: the text after the last occurrence of `sep`, or
      the whole string when `sep` does not occur (no error is raised). */
  function SplitPop(s: string, sep: string): (r: string)
    requires |sep| > 0
    ensures |r| <= |s| && r == s[|s| - |r|..]
    ensures !Contains(r, sep)
    ensures !Contains(s, sep) ==> r == s
    ensures Contains(s, sep) ==> |r| + |sep| <= |s| && OccursAt(s, sep, |s| - |r| - |sep|)
  {
    var k := LastPieceStart(s, sep, 0);
    LastPieceNoOccurrence(s, sep, 0);
    LastPieceAfterOccurrence(s, sep, 0);
    SuffixOccurrences(s, sep, k);
    s[k..]
  }

  /** The last piece of the split starts where LastPieceStart says; with
      `from == 0` this makes SplitPop the element that `pop()` removes. */
  lemma {:induction false} LastPieceOfSplitFrom(s: string, sep: string, from: nat)
    requires |sep| > 0 && from <= |s|
    ensures var r := SplitFrom(s, sep, from); r[|r| - 1] == s[LastPieceStart(s, sep, from)..]
    decreases |s| - from
  {
    var f := FindFrom(s, sep, from);
    if f.None? {
      SplitEnd(s, sep, from);
    } else {
      LastPieceOfSplitFrom(s, sep, f.value + |sep|);
      SplitStep(s, sep, from, f.value);
    }
  }

  /** Inside `header + ";base64," + payload` with no `;` in the payload, the
      only `;` after the header is the marker's first character. */
  lemma SemicolonsAfterHeader(header: string, payload: string)
    requires ';' !in payload
    ensures var s := header + Base64Marker + payload; var h := |header|;
      && OccursAt(s, Base64Marker, h)
      && forall j :: h < j < |s| ==> s[j] != ';'
  {
    var s := header + Base64Marker + payload;
    var h := |header|;
    assert s[h..h + 8] == Base64Marker;
    forall j | h < j < |s| ensures s[j] != ';' {
      if j < h + 8 {
        assert s[j] == Base64Marker[j - h];
      } else {
        assert s[j] == payload[j - h - 8];
      }
    }
  }

  /** The marker starts with its only `;`, so an occurrence that reaches past
      position `h` while no `;` follows `h` must start exactly at `h`. */
  lemma MarkerOccurrenceAt(s: string, h: nat, q: nat)
    requires OccursAt(s, Base64Marker, h) && OccursAt(s, Base64Marker, q) && h < q + 8
    requires forall j :: h < j < |s| ==> s[j] != ';'
    ensures q == h
  {
    assert s[q] == ';' by { assert s[q..q + 8][0] == s[q]; }
    assert s[h] == ';' by { assert s[h..h + 8][0] == s[h]; }
  }

  /** A payload written after the marker is read back, provided it holds no
      `;` (no base64 text does). */
  lemma PayloadOfDataUrl(header: string, payload: string)
    requires ';' !in payload
    ensures SplitPop(header + Base64Marker + payload, Base64Marker) == payload
  {
    var s := header + Base64Marker + payload;
    var h := |header|;
    var k := LastPieceStart(s, Base64Marker, 0);
    assert k == h + 8 by {
      SemicolonsAfterHeader(header, payload);
      LastPieceNoOccurrence(s, Base64Marker, 0);
      LastPieceAfterOccurrence(s, Base64Marker, 0);
      assert h < k;
      MarkerOccurrenceAt(s, h, k - 8);
    }
    assert SplitPop(s, Base64Marker) == s[k..];
    assert s[h + 8..] == payload;
  }

  /** `String.fromCharCode.apply(null, Body)`: one character per byte, whose
      code is the byte's value. */
  function BytesToString(body: seq<byte>): (r: string)
    ensures |r| == |body|
    ensures forall i :: 0 <= i < |body| ==> r[i] as int == body[i] as int
  {
    if body == [] then [] else [body[0] as int as char] + BytesToString(body[1..])
  }

  /** No two bodies give the same string. */
  lemma BytesToStringInjective(a: seq<byte>, b: seq<byte>)
    requires BytesToString(a) == BytesToString(b)
    ensures a == b
  {
    assert |a| == |b|;
    forall i | 0 <= i < |a| ensures a[i] == b[i] {
      assert BytesToString(a)[i] == BytesToString(b)[i];
    }
  }
}
