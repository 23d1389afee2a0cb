/** The two Python string splits the dashboard relies on: `str.split()` with
    no argument (runs of whitespace, used by `shorten_name`) and
    `str.split(sep)` with a separator (used by `get_opponent`). */
module Text {
  import opened Wrappers

  type String = seq<char>

  /** Python's `str.isspace` for one character: the characters that
      `str.split()` treats as separators. */
  predicate IsSpace(c: char) {
    || c == ' ' || c == '\t' || c == '\n' || c == '\r' || c == '\U{b}' || c == '\U{c}'
    || ('\U{1c}' <= c <= '\U{1f}')
    || c == '\U{85}' || c == '\U{a0}' || c == '\U{1680}'
    || ('\U{2000}' <= c <= '\U{200a}')
    || c == '\U{2028}' || c == '\U{2029}' || c == '\U{202f}' || c == '\U{205f}' || c == '\U{3000}'
  }

  /** A token produced by `str.split()`: non-empty, no whitespace in it. */
  predicate IsWord(w: String) {
    w != [] && forall i :: 0 <= i < |w| ==> !IsSpace(w[i])
  }

  /** Empty, or whitespace only. */
  predicate IsBlank(s: String) {
    forall i :: 0 <= i < |s| ==> IsSpace(s[i])
  }

  /** Length of the leading run of non-whitespace characters. */
  function WordLength(s: String): (n: nat)
    ensures n <= |s|
    ensures forall i :: 0 <= i < n ==> !IsSpace(s[i])
    ensures n < |s| ==> IsSpace(s[n])
  {
    if s == [] || IsSpace(s[0]) then 0 else 1 + WordLength(s[1..])
  }

  /** `s.split()`: the maximal runs of non-whitespace characters, in order;
      leading, trailing and repeated whitespace produce no empty tokens. */
  function Words(s: String): (ws: seq<String>)
    ensures forall w :: w in ws ==> IsWord(w)
    ensures ws == [] <==> IsBlank(s)
    decreases |s|
  {
    if s == [] then []
    else if IsSpace(s[0]) then
      var ws := Words(s[1..]);
      assert IsBlank(s[1..]) ==> IsBlank(s) by {
        forall i | 0 < i < |s| ensures IsSpace(s[1..][i - 1]) ==> IsSpace(s[i]) {}
      }
      ws
    else
      var n := WordLength(s);
      [s[..n]] + Words(s[n..])
  }

  /** `" ".join(ws)`. */
  function JoinWords(ws: seq<String>): String {
    JoinOn(ws, " ")
  }

  lemma {:induction false} WordLengthOfWord(w: String, rest: String)
    requires IsWord(w)
    requires rest == [] || IsSpace(rest[0])
    ensures WordLength(w + rest) == |w|
    decreases |w|
  {
    var s := w + rest;
    assert s[0] == w[0];
    if |w| > 1 {
      assert s[1..] == w[1..] + rest;
      WordLengthOfWord(w[1..], rest);
    } else {
      assert s[1..] == rest;
    }
  }

  /** A word followed by a separator (or nothing) is split off as one token. */
  lemma WordsOfWord(w: String, rest: String)
    requires IsWord(w)
    requires rest == [] || IsSpace(rest[0])
    ensures Words(w + rest) == [w] + Words(rest)
  {
    var s := w + rest;
    WordLengthOfWord(w, rest);
    assert s[..|w|] == w && s[|w|..] == rest;
  }

  /** Whitespace before the first token yields no token: leading, repeated
      and mixed whitespace (tabs, newlines) are skipped. With `WordsOfWord`
      this fixes `Words` on every string. */
  lemma {:induction false} WordsSkipsBlank(b: String, s: String)
    requires IsBlank(b)
    ensures Words(b + s) == Words(s)
    decreases |b|
  {
    if b != [] {
      assert (b + s)[0] == b[0] && (b + s)[1..] == b[1..] + s;
      assert IsSpace(b[0]);
      assert IsBlank(b[1..]) by {
        forall i | 0 <= i < |b[1..]| ensures IsSpace(b[1..][i]) { assert b[1..][i] == b[i + 1]; }
      }
      WordsSkipsBlank(b[1..], s);
    } else {
      assert b + s == s;
    }
  }

  /** Splitting a space-joined list of words gives the words back. */
  lemma {:induction false} WordsJoinWords(ws: seq<String>)
    requires forall w :: w in ws ==> IsWord(w)
    ensures Words(JoinWords(ws)) == ws
  {
    if ws == [] {
    } else if |ws| == 1 {
      WordsOfWord(ws[0], []);
      assert ws[0] + [] == ws[0];
    } else {
      var tail := JoinWords(ws[1..]);
      assert ws[0] + " " + tail == ws[0] + (" " + tail);
      WordsOfWord(ws[0], " " + tail);
      assert (" " + tail)[1..] == tail;
      WordsJoinWords(ws[1..]);
      assert ws == [ws[0]] + ws[1..];
    }
  }

  /** The separator of a match label. */
  const Sep: String := " vs "

  predicate OccursAt(s: String, sep: String, i: nat) {
    i + |sep| <= |s| && s[i..i + |sep|] == sep
  }

  ghost predicate Contains(s: String, sep: String) {
    exists i: nat :: OccursAt(s, sep, i)
  }

  predicate EndsWith(s: String, suffix: String) {
    |suffix| <= |s| && s[|s| - |suffix|..] == suffix
  }

  lemma OccursShifted(s: String, sep: String, i: nat)
    requires s != []
    ensures OccursAt(s, sep, i + 1) <==> OccursAt(s[1..], sep, i)
  {
  }

  lemma OccursInPrefix(s: String, sep: String, n: nat, i: nat)
    requires n <= |s|
    requires OccursAt(s[..n], sep, i)
    ensures OccursAt(s, sep, i)
  {
  }

  /** `s.find(sep)`: the leftmost occurrence, if any. */
  function IndexOf(s: String, sep: String): (r: Option<nat>)
    requires sep != []
    ensures r.Some? ==> OccursAt(s, sep, r.value)
    ensures r.Some? ==> forall j: nat :: j < r.value ==> !OccursAt(s, sep, j)
    ensures r.None? <==> !Contains(s, sep)
    decreases |s|
  {
    if |s| < |sep| then None
    else if s[..|sep|] == sep then Some(0)
    else
      var r := IndexOf(s[1..], sep);
      assert forall j: nat :: OccursAt(s, sep, j + 1) <==> OccursAt(s[1..], sep, j) by {
        forall j: nat ensures OccursAt(s, sep, j + 1) <==> OccursAt(s[1..], sep, j) {
          OccursShifted(s, sep, j);
        }
      }
      assert !OccursAt(s, sep, 0);
      assert forall j: nat :: OccursAt(s, sep, j) ==> j >= 1 && OccursAt(s[1..], sep, j - 1);
      match r
      case None => None
      case Some(i) => Some(i + 1)
  }

  /** `s.split(sep)`: the pieces between the non-overlapping occurrences of
      `sep`, found left to right. No piece contains the separator, and there is
      a second piece exactly when the separator occurs. */
  function SplitOn(s: String, sep: String): (parts: seq<String>)
    requires sep != []
    ensures |parts| >= 1
    ensures forall p :: p in parts ==> !Contains(p, sep)
    ensures |parts| >= 2 <==> Contains(s, sep)
    decreases |s|
  {
    match IndexOf(s, sep)
    case None => [s]
    case Some(i) =>
      assert !Contains(s[..i], sep) by {
        forall j: nat | OccursAt(s[..i], sep, j) ensures false {
          OccursInPrefix(s, sep, i, j);
        }
      }
      [s[..i]] + SplitOn(s[i + |sep|..], sep)
  }

  /** The split at a known leftmost occurrence: the piece before it, then
      the split of what follows it. */
  lemma SplitAt(s: String, sep: String, i: nat)
    requires sep != []
    requires OccursAt(s, sep, i) && forall j: nat :: j < i ==> !OccursAt(s, sep, j)
    ensures SplitOn(s, sep) == [s[..i]] + SplitOn(s[i + |sep|..], sep)
  {
    IndexAt(s, sep, i);
  }

  /** An occurrence with none before it is the one `find` reports. */
  lemma IndexAt(s: String, sep: String, i: nat)
    requires sep != []
    requires OccursAt(s, sep, i) && forall j: nat :: j < i ==> !OccursAt(s, sep, j)
    ensures IndexOf(s, sep) == Some(i)
  {
    assert Contains(s, sep);
  }

  /** Any occurrence of the separator bounds the length of the first piece. */
  lemma FirstPieceBefore(s: String, sep: String, j: nat)
    requires sep != [] && OccursAt(s, sep, j)
    ensures |SplitOn(s, sep)[0]| <= j
  {
    assert Contains(s, sep);
    var i := IndexOf(s, sep).value;
    assert SplitOn(s, sep)[0] == s[..i];
  }

  /** `sep.join(parts)`. */
  function JoinOn(parts: seq<String>, sep: String): String {
    if parts == [] then []
    else if |parts| == 1 then parts[0]
    else parts[0] + sep + JoinOn(parts[1..], sep)
  }

  /** Joining the pieces of a split with the same separator restores the
      string. */
  lemma {:induction false} JoinSplit(s: String, sep: String)
    requires sep != []
    ensures JoinOn(SplitOn(s, sep), sep) == s
    decreases |s|
  {
    match IndexOf(s, sep)
    case None =>
    case Some(i) =>
      var rest := s[i + |sep|..];
      var parts := SplitOn(s, sep);
      assert parts == [s[..i]] + SplitOn(rest, sep);
      JoinSplit(rest, sep);
      assert |parts| >= 2;
      assert JoinOn(parts, sep) == s[..i] + sep + JoinOn(SplitOn(rest, sep), sep);
      assert s[i..i + |sep|] == sep;
      assert s == s[..i] + s[i..i + |sep|] + rest;
  }
}
