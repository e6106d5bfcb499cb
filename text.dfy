/**
 * The string operations of Python's `str` that the dispatcher relies on:
 * `startswith`, `split(sep)`, `split()` (whitespace) and `sep.join(...)`.
 */
module Text {

  /** The whitespace characters `str.split()` breaks on (the ASCII part of `str.isspace`). */
  predicate IsSpace(c: char) {
    c == ' ' || 9 <= c as int <= 13 || 28 <= c as int <= 31
  }

  /** A token `str.split()` can produce: non-empty, with no whitespace in it. */
  predicate IsWord(w: string) {
    |w| > 0 && forall i :: 0 <= i < |w| ==> !IsSpace(w[i])
  }

  /** `s.startswith(prefix)` */
  predicate StartsWith(s: string, prefix: string) {
    |prefix| <= |s| && s[..|prefix|] == prefix
  }

  /** `sep` occurs in `s` starting at index `i`. */
  predicate OccursAt(s: string, sep: string, i: int) {
    0 <= i && i + |sep| <= |s| && s[i..i + |sep|] == sep
  }

  /** `sep in s` */
  ghost predicate Contains(s: string, sep: string) {
    exists i :: OccursAt(s, sep, i)
  }

  /** `sep.join(segments)` */
  function Join(segments: seq<string>, sep: string): string {
    if |segments| == 0 then ""
    else if |segments| == 1 then segments[0]
    else segments[0] + sep + Join(segments[1..], sep)
  }

  /**
   * `s.split(sep)` for a non-empty `sep` (Python raises on an empty one):
   * cut at every occurrence of `sep`, scanning left to right, occurrences not overlapping.
   */
  function Split(s: string, sep: string): (r: seq<string>)
    requires |sep| > 0
    ensures |r| >= 1
    ensures StartsWith(s, r[0])
    decreases |s|
  {
    if |s| < |sep| then [s]
    else if s[..|sep|] == sep then [""] + Split(s[|sep|..], sep)
    else
      var rest := Split(s[1..], sep);
      [[s[0]] + rest[0]] + rest[1..]
  }

  /** Joining the pieces of a split with the separator gives the text back. */
  lemma {:induction false} SplitJoin(s: string, sep: string)
    requires |sep| > 0
    ensures Join(Split(s, sep), sep) == s
    decreases |s|
  {
    if |s| < |sep| {
      assert Split(s, sep) == [s];
    } else if s[..|sep|] == sep {
      SplitJoin(s[|sep|..], sep);
      var rest := Split(s[|sep|..], sep);
      assert Split(s, sep) == [""] + rest;
      JoinCons("", rest, sep);
      assert s == s[..|sep|] + s[|sep|..];
    } else {
      SplitJoin(s[1..], sep);
      var rest := Split(s[1..], sep);
      assert Split(s, sep) == [[s[0]] + rest[0]] + rest[1..];
      JoinGlue(s[0], rest, sep);
      assert s == [s[0]] + s[1..];
    }
  }

  /** Joining a list of two or more segments puts the separator after the first. */
  lemma JoinCons(first: string, rest: seq<string>, sep: string)
    requires |rest| >= 1
    ensures Join([first] + rest, sep) == first + sep + Join(rest, sep)
  {
    assert ([first] + rest)[1..] == rest;
  }

  /** A character glued onto the first segment ends up in front of the whole join. */
  lemma JoinGlue(c: char, rest: seq<string>, sep: string)
    requires |rest| >= 1
    ensures Join([[c] + rest[0]] + rest[1..], sep) == [c] + Join(rest, sep)
  {
    var r := [[c] + rest[0]] + rest[1..];
    assert r[1..] == rest[1..];
    if |rest| > 1 {
      assert Join(r, sep) == [c] + rest[0] + sep + Join(rest[1..], sep);
      assert [c] + rest[0] + sep + Join(rest[1..], sep) == [c] + (rest[0] + sep + Join(rest[1..], sep));
    }
  }

  /** No piece of a split still contains the separator. */
  lemma {:induction false} SplitPiecesFree(s: string, sep: string)
    requires |sep| > 0
    ensures forall k :: 0 <= k < |Split(s, sep)| ==> !Contains(Split(s, sep)[k], sep)
    decreases |s|
  {
    if |s| < |sep| {
      assert Split(s, sep) == [s];
    } else if s[..|sep|] == sep {
      SplitPiecesFree(s[|sep|..], sep);
      assert !Contains("", sep);
    } else {
      SplitPiecesFree(s[1..], sep);
      var rest := Split(s[1..], sep);
      var head := [s[0]] + rest[0];
      assert head[1..] == rest[0];
      HeadFree(s, sep, head);
      assert Split(s, sep) == [head] + rest[1..];
    }
  }

  /**
   * The split cuts at the leftmost occurrence: no occurrence of `sep` in `s` starts
   * inside the first piece, not even one reaching past its end.
   */
  lemma {:induction false} SplitCutsAtFirst(s: string, sep: string)
    requires |sep| > 0
    ensures forall i :: 0 <= i < |Split(s, sep)[0]| ==> !OccursAt(s, sep, i)
    decreases |s|
  {
    if |s| >= |sep| && s[..|sep|] != sep {
      var rest := Split(s[1..], sep);
      SplitCutsAtFirst(s[1..], sep);
      var head := Split(s, sep)[0];
      assert head == [s[0]] + rest[0];
      forall i | 0 <= i < |head| ensures !OccursAt(s, sep, i) {
        if 0 < i && i + |sep| <= |s| {
          assert !OccursAt(s[1..], sep, i - 1);
          assert s[1..][i - 1..i - 1 + |sep|] == s[i..i + |sep|];
        }
      }
    }
  }

  /**
   * Splitting cuts at the leftmost occurrence: when `s` is `head + sep + tail` and no
   * occurrence of `sep` in `s` starts inside `head`, the first piece is `head` and the
   * other pieces are the split of `tail`. With `SplitNoSeparator` this determines `split`.
   */
  lemma {:induction false} SplitAtFirst(head: string, sep: string, tail: string)
    requires |sep| > 0
    requires forall i :: 0 <= i < |head| ==> !OccursAt(head + sep + tail, sep, i)
    ensures Split(head + sep + tail, sep) == [head] + Split(tail, sep)
    decreases |head|
  {
    var s := head + sep + tail;
    if head == [] {
      assert s == sep + tail && s[..|sep|] == sep && s[|sep|..] == tail;
    } else {
      assert !OccursAt(s, sep, 0);
      var h := head[1..];
      assert s[1..] == h + sep + tail;
      forall i | 0 <= i < |h| ensures !OccursAt(h + sep + tail, sep, i) {
        assert !OccursAt(s, sep, i + 1);
        assert s[i + 1..i + 1 + |sep|] == s[1..][i..i + |sep|];
      }
      SplitAtFirst(h, sep, tail);
      assert Split(s, sep) == [[s[0]] + h] + Split(tail, sep);
      assert [s[0]] + h == head;
    }
  }

  /** A prefix of `s`, where `s` does not start with `sep`, whose tail is free of `sep`, is free of `sep`. */
  lemma HeadFree(s: string, sep: string, head: string)
    requires |sep| > 0 && |sep| <= |s| && s[..|sep|] != sep
    requires |head| > 0 && StartsWith(s, head) && !Contains(head[1..], sep)
    ensures !Contains(head, sep)
  {
    var tail := head[1..];
    forall i ensures !OccursAt(head, sep, i) {
      if i == 0 && |sep| <= |head| {
        assert head[..|sep|] == s[..|sep|];
      } else if 0 < i && i + |sep| <= |head| {
        assert !OccursAt(tail, sep, i - 1);
        assert tail[i - 1..i - 1 + |sep|] == head[i..i + |sep|];
      }
    }
  }

  /** Text without the separator is one piece. */
  lemma {:induction false} SplitNoSeparator(s: string, sep: string)
    requires |sep| > 0 && !Contains(s, sep)
    ensures Split(s, sep) == [s]
    decreases |s|
  {
    if |s| >= |sep| {
      assert !OccursAt(s, sep, 0);
      if !Contains(s[1..], sep) {
        SplitNoSeparator(s[1..], sep);
        assert [s[0]] + s[1..] == s;
      } else {
        var i :| OccursAt(s[1..], sep, i);
        assert s[1..][i..i + |sep|] == s[i + 1..i + 1 + |sep|];
        assert OccursAt(s, sep, i + 1);
      }
    }
  }

  lemma JoinTwo(a: string, b: string, sep: string)
    ensures Join([a, b], sep) == a + sep + b
  {
    assert [a, b][1..] == [b];
  }

  lemma JoinThree(a: string, b: string, c: string, sep: string)
    ensures Join([a, b, c], sep) == a + sep + b + sep + c
  {
    assert [a, b, c][1..] == [b, c];
    JoinTwo(b, c, sep);
  }

  /** Splitting on a one-character separator undoes a join of pieces that do not contain it. */
  lemma {:induction false} SplitJoinChar(pieces: seq<string>, c: char)
    requires |pieces| >= 1
    requires forall k, j :: 0 <= k < |pieces| && 0 <= j < |pieces[k]| ==> pieces[k][j] != c
    ensures Split(Join(pieces, [c]), [c]) == pieces
    decreases |pieces|
  {
    if |pieces| == 1 {
      NoCharNoSplit(pieces[0], c, []);
      assert pieces[0] + [] == pieces[0];
      assert [pieces[0]] + Split([], [c])[1..] == pieces;
    } else {
      SplitJoinChar(pieces[1..], c);
      var rest := Join(pieces[1..], [c]);
      assert Join(pieces, [c]) == pieces[0] + ([c] + rest);
      NoCharNoSplit(pieces[0], c, [c] + rest);
      assert ([c] + rest)[..1] == [c];
      assert ([c] + rest)[1..] == rest;
      assert Split([c] + rest, [c]) == [""] + Split(rest, [c]);
    }
  }

  /** A run of characters other than `c` in front of `t` extends the first piece of `t`. */
  lemma {:induction false} NoCharNoSplit(a: string, c: char, t: string)
    requires forall j :: 0 <= j < |a| ==> a[j] != c
    ensures Split(a + t, [c]) == [a + Split(t, [c])[0]] + Split(t, [c])[1..]
    decreases |a|
  {
    var r := Split(t, [c]);
    if a == [] {
      assert a + t == t;
      assert a + r[0] == r[0];
      assert [r[0]] + r[1..] == r;
    } else {
      var s := a + t;
      assert s[1..] == a[1..] + t;
      assert s[0] == a[0];
      assert s[..1] == [a[0]];
      var inner := Split(s[1..], [c]);
      assert Split(s, [c]) == [[s[0]] + inner[0]] + inner[1..];
      NoCharNoSplit(a[1..], c, t);
      assert inner == [a[1..] + r[0]] + r[1..];
      assert [a[0]] + (a[1..] + r[0]) == a + r[0];
    }
  }

  /** Length of the run of non-whitespace characters that `s` starts with. */
  function WordLength(s: string): (n: nat)
    ensures n <= |s|
    ensures forall i :: 0 <= i < n ==> !IsSpace(s[i])
    ensures n < |s| ==> IsSpace(s[n])
  {
    if s == [] || IsSpace(s[0]) then 0 else 1 + WordLength(s[1..])
  }

  /** `s.split()`: the maximal runs of non-whitespace characters, in order. */
  function WsSplit(s: string): (r: seq<string>)
    ensures forall k :: 0 <= k < |r| ==> IsWord(r[k])
    decreases |s|
  {
    if s == [] then []
    else if IsSpace(s[0]) then WsSplit(s[1..])
    else
      var n := WordLength(s);
      [s[..n]] + WsSplit(s[n..])
  }

  /** The non-whitespace characters of `s`, in order. */
  function NonSpace(s: string): string {
    if s == [] then "" else (if IsSpace(s[0]) then "" else [s[0]]) + NonSpace(s[1..])
  }

  /** `"".join(ws)` */
  function Concat(ws: seq<string>): string {
    if ws == [] then "" else ws[0] + Concat(ws[1..])
  }

  lemma {:induction false} NonSpaceAppend(a: string, b: string)
    ensures NonSpace(a + b) == NonSpace(a) + NonSpace(b)
    decreases |a|
  {
    if a != [] {
      NonSpaceAppend(a[1..], b);
      assert (a + b)[1..] == a[1..] + b;
    } else {
      assert a + b == b;
    }
  }

  lemma {:induction false} NonSpaceOfWord(w: string)
    requires forall i :: 0 <= i < |w| ==> !IsSpace(w[i])
    ensures NonSpace(w) == w
    decreases |w|
  {
    if w != [] {
      NonSpaceOfWord(w[1..]);
      assert [w[0]] + w[1..] == w;
    }
  }

  /** `s.split()` loses exactly the whitespace: its tokens put together are the other characters of `s`. */
  lemma {:induction false} WsSplitKeepsNonSpace(s: string)
    ensures Concat(WsSplit(s)) == NonSpace(s)
    decreases |s|
  {
    if s == [] {
    } else if IsSpace(s[0]) {
      WsSplitKeepsNonSpace(s[1..]);
    } else {
      var n := WordLength(s);
      WsSplitKeepsNonSpace(s[n..]);
      assert s == s[..n] + s[n..];
      NonSpaceAppend(s[..n], s[n..]);
      NonSpaceOfWord(s[..n]);
      assert ([s[..n]] + WsSplit(s[n..]))[1..] == WsSplit(s[n..]);
    }
  }

  /** A word followed by whitespace or the end splits off as one token. */
  lemma WsSplitWordThen(w: string, rest: string)
    requires IsWord(w)
    requires rest == [] || IsSpace(rest[0])
    ensures WsSplit(w + rest) == [w] + WsSplit(rest)
  {
    var s := w + rest;
    var n := WordLength(s);
    assert forall i :: 0 <= i < |w| ==> s[i] == w[i];
    assert |rest| > 0 ==> s[|w|] == rest[0];
    assert s[..n] == w && s[n..] == rest;
  }

  /** Leading whitespace is skipped. */
  lemma WsSplitSpaceThen(rest: string)
    ensures WsSplit(" " + rest) == WsSplit(rest)
  {
    assert (" " + rest)[1..] == rest;
  }

  /** Leading whitespace, of any of the characters `str.split()` breaks on, is skipped. */
  lemma {:induction false} WsSplitSkipSpace(blank: string, rest: string)
    requires forall i :: 0 <= i < |blank| ==> IsSpace(blank[i])
    ensures WsSplit(blank + rest) == WsSplit(rest)
    decreases |blank|
  {
    if blank != [] {
      WsSplitSkipSpace(blank[1..], rest);
      assert (blank + rest)[0] == blank[0];
      assert (blank + rest)[1..] == blank[1..] + rest;
    } else {
      assert blank + rest == rest;
    }
  }

  /** `" ".join(words).split()` gives the words back. */
  lemma {:induction false} WsSplitJoin(words: seq<string>)
    requires forall k :: 0 <= k < |words| ==> IsWord(words[k])
    ensures WsSplit(Join(words, " ")) == words
    decreases |words|
  {
    if |words| == 1 {
      WsSplitWordThen(words[0], "");
      assert words[0] + "" == words[0];
    } else if |words| > 1 {
      var w, tail := words[0], words[1..];
      var rest := Join(tail, " ");
      assert IsWord(w);
      WsSplitJoin(tail);
      assert Join(words, " ") == w + (" " + rest);
      WsSplitWordThen(w, " " + rest);
      WsSplitSpaceThen(rest);
      assert words == [w] + tail;
    }
  }

  /** Text none of whose characters is `c` does not contain the one-character separator `[c]`. */
  lemma NoCharNotContained(s: string, c: char)
    requires forall j :: 0 <= j < |s| ==> s[j] != c
    ensures !Contains(s, [c])
  {
    forall i ensures !OccursAt(s, [c], i) {
      if 0 <= i < |s| {
        assert s[i..i + 1][0] == s[i];
      }
    }
  }
}
