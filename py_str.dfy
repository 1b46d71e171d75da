/**
 * The Python 2 `str` methods that the GTF attribute extractor relies on:
 * `strip`, `rstrip` (with and without an explicit character set) and
 * `split` with an explicit separator. Strings are sequences of characters.
 *
 * The functions carry almost no postconditions of their own; what they compute is
 * stated by the lemmas that follow each of them, so that a caller pays for
 * those facts only where it asks for them.
 */
module PyStr {

  /** The characters Python 2's `str.strip()` and `str.rstrip()` remove when given no argument. */
  const Whitespace: set<char> := {' ', '\t', '\n', '\r', '\U{000B}', '\U{000C}'}

  /** `sep` occurs in `s` starting at index `i`. */
  predicate OccursAt(s: string, sep: string, i: int)
  {
    0 <= i && i + |sep| <= |s| && s[i..i + |sep|] == sep
  }

  /** Python's `sep in s`. */
  predicate Contains(s: string, sep: string)
  {
    exists i :: 0 <= i <= |s| - |sep| && OccursAt(s, sep, i)
  }

  /** `s` is `r` at offset `k`, with only characters of `cs` before and after it. */
  predicate Surrounds(s: string, cs: set<char>, k: int, r: string)
  {
    && 0 <= k <= |s| - |r| && s[k..k + |r|] == r
    && (forall i :: 0 <= i < k ==> s[i] in cs)
    && (forall i :: k + |r| <= i < |s| ==> s[i] in cs)
  }

  /** `s.lstrip(cs)`. */
  function TrimLeft(s: string, cs: set<char>): string
    decreases |s|
  {
    if |s| > 0 && s[0] in cs then TrimLeft(s[1..], cs) else s
  }

  /** `s.rstrip(cs)`; `rstrip()` without argument is `TrimRight(s, Whitespace)`. */
  function TrimRight(s: string, cs: set<char>): string
    decreases |s|
  {
    if |s| > 0 && s[|s| - 1] in cs then TrimRight(s[..|s| - 1], cs) else s
  }

  /** `s.strip(cs)`; `strip()` without argument is `Strip(s, Whitespace)`. */
  function Strip(s: string, cs: set<char>): string
  {
    TrimRight(TrimLeft(s, cs), cs)
  }

  /** `lstrip` keeps the longest suffix of `s` that does not start with a character of `cs`. */
  lemma {:induction false} TrimLeftSpec(s: string, cs: set<char>)
    ensures var r := TrimLeft(s, cs);
            && |r| <= |s| && r == s[|s| - |r|..]
            && (forall i :: 0 <= i < |s| - |r| ==> s[i] in cs)
            && (r == [] || r[0] !in cs)
    decreases |s|
  {
    if |s| > 0 && s[0] in cs {
      TrimLeftSpec(s[1..], cs);
    }
  }

  /** `rstrip` keeps the longest prefix of `s` that does not end with a character of `cs`. */
  lemma {:induction false} TrimRightSpec(s: string, cs: set<char>)
    ensures var r := TrimRight(s, cs);
            && |r| <= |s| && r == s[..|r|]
            && (forall i :: |r| <= i < |s| ==> s[i] in cs)
            && (r == [] || r[|r| - 1] !in cs)
    decreases |s|
  {
    if |s| > 0 && s[|s| - 1] in cs {
      TrimRightSpec(s[..|s| - 1], cs);
    }
  }

  /**
   * `strip` keeps a slice of `s` that neither starts nor ends with a character
   * of `cs`, and removes only characters of `cs` around it.
   */
  lemma StripSpec(s: string, cs: set<char>)
    ensures var r := Strip(s, cs);
            && (r == [] || (r[0] !in cs && r[|r| - 1] !in cs))
            && exists k :: Surrounds(s, cs, k, r)
  {
    var left := TrimLeft(s, cs);
    TrimLeftSpec(s, cs);
    var r := TrimRight(left, cs);
    TrimRightSpec(left, cs);
    var k := |s| - |left|;
    assert left == s[k..];
    assert s[k..k + |r|] == r;
    forall i | k + |r| <= i < |s| ensures s[i] in cs {
      assert s[i] == left[i - k];
    }
    assert Surrounds(s, cs, k, r);
    assert r != [] ==> r[0] == left[0];
  }

  /** Stripping twice removes nothing more than stripping once. */
  lemma StripIdempotent(s: string, cs: set<char>)
    ensures Strip(Strip(s, cs), cs) == Strip(s, cs)
  {
    var r := Strip(s, cs);
    StripSpec(s, cs);
    TrimLeftNoop(r, cs);
    TrimRightNoop(r, cs);
  }

  lemma TrimLeftNoop(s: string, cs: set<char>)
    requires s == [] || s[0] !in cs
    ensures TrimLeft(s, cs) == s
  {
  }

  lemma TrimRightNoop(s: string, cs: set<char>)
    requires s == [] || s[|s| - 1] !in cs
    ensures TrimRight(s, cs) == s
  {
  }

  /** The inverse of `Split`: Python's `sep.join(pieces)`. */
  function Join(pieces: seq<string>, sep: string): string
    requires |pieces| >= 1
    decreases |pieces|
  {
    if |pieces| == 1 then pieces[0] else pieces[0] + sep + Join(pieces[1..], sep)
  }

  /** Joining a piece in front of at least one more piece puts one separator between them. */
  lemma JoinCons(piece: string, pieces: seq<string>, sep: string)
    requires |pieces| >= 1
    ensures Join([piece] + pieces, sep) == piece + sep + Join(pieces, sep)
  {
    assert ([piece] + pieces)[1..] == pieces;
  }

  /** The first piece starts the joined string. */
  lemma JoinStartsWithFirst(pieces: seq<string>, sep: string)
    requires |pieces| >= 1
    ensures |pieces[0]| <= |Join(pieces, sep)| && Join(pieces, sep)[..|pieces[0]|] == pieces[0]
  {
  }

  /**
   * `s.split(sep)` for a non-empty separator: cut `s` at every occurrence of
   * `sep`, scanning from the left and never letting two cuts overlap.
   */
  function Split(s: string, sep: string): (r: seq<string>)
    requires sep != []
    ensures |r| >= 1
    decreases |s|
  {
    if |s| < |sep| then [s]
    else if s[..|sep|] == sep then [[]] + Split(s[|sep|..], sep)
    else
      var rest := Split(s[1..], sep);
      [[s[0]] + rest[0]] + rest[1..]
  }

  /** The pieces of `s.split(sep)` joined back with `sep` give `s`. */
  lemma {:induction false} SplitJoinsBack(s: string, sep: string)
    requires sep != []
    ensures Join(Split(s, sep), sep) == s
    decreases |s|
  {
    if |s| >= |sep| {
      if s[..|sep|] == sep {
        var rest := Split(s[|sep|..], sep);
        SplitJoinsBack(s[|sep|..], sep);
        assert ([[]] + rest)[1..] == rest;
        assert s == sep + s[|sep|..];
      } else {
        var rest := Split(s[1..], sep);
        SplitJoinsBack(s[1..], sep);
        JoinExtendsFirst(s[0], rest, sep);
        assert s == [s[0]] + s[1..];
      }
    }
  }

  /** Putting a character in front of the first piece puts it in front of the joined string. */
  lemma JoinExtendsFirst(c: char, pieces: seq<string>, sep: string)
    requires |pieces| >= 1
    ensures Join([[c] + pieces[0]] + pieces[1..], sep) == [c] + Join(pieces, sep)
  {
    var first := [c] + pieces[0];
    if |pieces| > 1 {
      assert ([first] + pieces[1..])[1..] == pieces[1..];
    }
  }

  /** No piece of `s.split(sep)` contains `sep`. */
  lemma {:induction false} SplitPiecesAvoidSep(s: string, sep: string)
    requires sep != []
    ensures forall k :: 0 <= k < |Split(s, sep)| ==> !Contains(Split(s, sep)[k], sep)
    decreases |s|
  {
    var r := Split(s, sep);
    if |s| < |sep| {
      assert forall i :: !OccursAt(s, sep, i);
    } else if s[..|sep|] == sep {
      SplitPiecesAvoidSep(s[|sep|..], sep);
      assert !Contains([], sep) by {
        assert forall i :: !OccursAt([], sep, i);
      }
      assert forall k :: 1 <= k < |r| ==> r[k] == Split(s[|sep|..], sep)[k - 1];
    } else {
      var rest := Split(s[1..], sep);
      SplitPiecesAvoidSep(s[1..], sep);
      SplitJoinsBack(s[1..], sep);
      FirstPieceClean(s, sep, rest);
      assert forall k :: 1 <= k < |r| ==> r[k] == rest[k];
    }
  }

  /** The pieces of `s.split(sep)` joined back with `sep` give `s`, and none of them contains `sep`. */
  lemma SplitSpec(s: string, sep: string)
    requires sep != []
    ensures var r := Split(s, sep);
            && |r| >= 1 && Join(r, sep) == s
            && forall k :: 0 <= k < |r| ==> !Contains(r[k], sep)
  {
    SplitJoinsBack(s, sep);
    SplitPiecesAvoidSep(s, sep);
  }

  /** Adding the first character of `s` to the first piece of `s[1..]` creates no occurrence of `sep`. */
  lemma FirstPieceClean(s: string, sep: string, rest: seq<string>)
    requires sep != [] && |s| >= |sep| && s[..|sep|] != sep
    requires |rest| >= 1 && Join(rest, sep) == s[1..]
    requires !Contains(rest[0], sep)
    ensures !Contains([s[0]] + rest[0], sep)
  {
    JoinStartsWithFirst(rest, sep);
    forall i | 0 <= i <= |rest[0]| + 1 - |sep| ensures !OccursAt([s[0]] + rest[0], sep, i) {
      FirstPieceCleanAt(s, sep, rest[0], i);
    }
  }

  /** The same, at one position `i` of the extended piece. */
  lemma FirstPieceCleanAt(s: string, sep: string, r0: string, i: int)
    requires sep != [] && |s| >= |sep| && s[..|sep|] != sep
    requires |r0| < |s| && s[1..][..|r0|] == r0
    requires !Contains(r0, sep)
    requires 0 <= i <= |r0| + 1 - |sep|
    ensures !OccursAt([s[0]] + r0, sep, i)
  {
    var first := [s[0]] + r0;
    if i == 0 {
      assert first[..|sep|] == s[..|sep|];
    } else {
      assert first[i..i + |sep|] == r0[i - 1..i - 1 + |sep|];
      assert !OccursAt(r0, sep, i - 1);
    }
  }

  /** `s.split(sep)` has more than one piece exactly when `sep` occurs in `s`. */
  lemma SplitCutsIffContains(s: string, sep: string)
    requires sep != []
    ensures |Split(s, sep)| > 1 <==> Contains(s, sep)
  {
    var r := Split(s, sep);
    SplitSpec(s, sep);
    if |r| > 1 {
      assert OccursAt(s, sep, |r[0]|) by {
        assert s == r[0] + sep + Join(r[1..], sep);
        assert s[|r[0]|..|r[0]| + |sep|] == sep;
      }
    } else {
      assert s == r[0];
    }
  }

  /** A one-character separator occurs in `s` exactly when its character does. */
  lemma ContainsChar(s: string, c: char)
    ensures Contains(s, [c]) <==> c in s
  {
    if c in s {
      var i :| 0 <= i < |s| && s[i] == c;
      assert OccursAt(s, [c], i);
    }
    if Contains(s, [c]) {
      var i :| 0 <= i <= |s| - 1 && OccursAt(s, [c], i);
      assert s[i..i + 1] == [c];
      assert s[i] == c;
    }
  }

  /** No proper prefix of `sep` is also a suffix of it, so two occurrences of `sep` never overlap. */
  predicate BorderFree(sep: string)
  {
    forall k :: 0 < k < |sep| ==> sep[..k] != sep[|sep| - k..]
  }

  /** When `sep` occurs nowhere in `p + sep + rest` before the end of `p`, the first cut falls right after `p`. */
  lemma {:induction false} SplitCutsAtFirst(p: string, sep: string, rest: string)
    requires sep != []
    requires forall i :: 0 <= i < |p| ==> !OccursAt(p + sep + rest, sep, i)
    ensures Split(p + sep + rest, sep) == [p] + Split(rest, sep)
    decreases |p|
  {
    var s := p + sep + rest;
    if p == [] {
      assert s == sep + rest;
      assert s[..|sep|] == sep && s[|sep|..] == rest;
    } else {
      assert !OccursAt(s, sep, 0);
      assert s[1..] == p[1..] + sep + rest;
      forall i | 0 <= i < |p[1..]| ensures !OccursAt(s[1..], sep, i) {
        assert !OccursAt(s, sep, i + 1);
        assert s[1..][i..i + |sep|] == s[i + 1..i + 1 + |sep|];
      }
      SplitCutsAtFirst(p[1..], sep, rest);
      assert [p[0]] + p[1..] == p;
    }
  }

  /**
   * For a separator whose occurrences cannot overlap (such as `"; "` or any
   * single character), `Split` is the only way to cut `s` into pieces that
   * join back to `s` and do not contain the separator.
   */
  lemma {:induction false} SplitUnique(s: string, sep: string, pieces: seq<string>)
    requires sep != [] && BorderFree(sep)
    requires |pieces| >= 1 && Join(pieces, sep) == s
    requires forall k :: 0 <= k < |pieces| ==> !Contains(pieces[k], sep)
    ensures Split(s, sep) == pieces
    decreases |pieces|
  {
    if |pieces| == 1 {
      var r := Split(s, sep);
      SplitSpec(s, sep);
      SplitCutsIffContains(s, sep);
      assert r == [r[0]];
    } else {
      var p, rest := pieces[0], pieces[1..];
      var tail := Join(rest, sep);
      assert s == p + sep + tail;
      forall i | 0 <= i < |p| ensures !OccursAt(s, sep, i) {
        if i + |sep| <= |p| {
          assert p[i..i + |sep|] == s[i..i + |sep|];
          assert !OccursAt(p, sep, i);
        } else {
          // an occurrence straddling the end of `p` would make a border of `sep`
          var d := |p| - i;
          assert s[i..i + |sep|][d..] == sep[..|sep| - d];
          assert sep[..|sep| - d] != sep[d..];
        }
      }
      SplitCutsAtFirst(p, sep, tail);
      forall k | 0 <= k < |rest| ensures !Contains(rest[k], sep) {
        assert rest[k] == pieces[k + 1];
      }
      SplitUnique(tail, sep, rest);
      assert pieces == [p] + rest;
    }
  }

  /** A one-character separator cannot overlap itself, so its cut is unique too. */
  lemma SplitCharUnique(s: string, c: char, pieces: seq<string>)
    requires |pieces| >= 1 && Join(pieces, [c]) == s
    requires forall k :: 0 <= k < |pieces| ==> c !in pieces[k]
    ensures Split(s, [c]) == pieces
  {
    forall k | 0 <= k < |pieces| ensures !Contains(pieces[k], [c]) {
      ContainsChar(pieces[k], c);
    }
    SplitUnique(s, [c], pieces);
  }

  /**
   * When the first character of `sep` does not occur in `p`, the first cut of
   * `p + sep + rest` falls right after `p`.
   */
  lemma {:induction false} SplitCutsAfterPrefix(p: string, sep: string, rest: string)
    requires sep != [] && sep[0] !in p
    ensures Split(p + sep + rest, sep) == [p] + Split(rest, sep)
    decreases |p|
  {
    var s := p + sep + rest;
    if p == [] {
      assert s == sep + rest;
      assert s[..|sep|] == sep && s[|sep|..] == rest;
    } else {
      assert s[..|sep|][0] == p[0];
      SplitCutsAfterPrefix(p[1..], sep, rest);
      assert s[1..] == p[1..] + sep + rest;
      assert [p[0]] + p[1..] == p;
    }
  }

  /**
   * When the first character of `sep` does not occur in `p` and `tail` is
   * shorter than `sep`, `p + tail` is not cut at all.
   */
  lemma {:induction false} SplitNoCut(p: string, tail: string, sep: string)
    requires sep != [] && sep[0] !in p && |tail| < |sep|
    ensures Split(p + tail, sep) == [p + tail]
    decreases |p|
  {
    var s := p + tail;
    if |s| >= |sep| {
      assert p != [] && s[..|sep|][0] == p[0];
      assert s[..|sep|] != sep;
      SplitNoCut(p[1..], tail, sep);
      assert s[1..] == p[1..] + tail;
      assert [s[0]] + s[1..] == s;
    }
  }

  /**
   * When the first character of `sep` occurs in no piece and `tail` is shorter
   * than `sep`, splitting the joined pieces followed by `tail` gives the pieces
   * back, `tail` staying on the last one.
   */
  lemma {:induction false} SplitJoined(pieces: seq<string>, sep: string, tail: string)
    requires |pieces| >= 1 && sep != [] && |tail| < |sep|
    requires forall k :: 0 <= k < |pieces| ==> sep[0] !in pieces[k]
    ensures Split(Join(pieces, sep) + tail, sep) == pieces[..|pieces| - 1] + [pieces[|pieces| - 1] + tail]
    decreases |pieces|
  {
    if |pieces| == 1 {
      SplitNoCut(pieces[0], tail, sep);
    } else {
      var rest := pieces[1..];
      SplitJoined(rest, sep, tail);
      assert Join(pieces, sep) + tail == pieces[0] + sep + (Join(rest, sep) + tail);
      SplitCutsAfterPrefix(pieces[0], sep, Join(rest, sep) + tail);
      assert pieces[..|pieces| - 1] == [pieces[0]] + rest[..|rest| - 1];
    }
  }

  /** The joined string ends with the last piece. */
  lemma {:induction false} JoinEndsWithLast(pieces: seq<string>, sep: string)
    requires |pieces| >= 1
    ensures var j, last := Join(pieces, sep), pieces[|pieces| - 1];
            |last| <= |j| && j[|j| - |last|..] == last
    decreases |pieces|
  {
    if |pieces| > 1 {
      JoinEndsWithLast(pieces[1..], sep);
    }
  }

  /** A character in no piece and not in the separator is not in the joined string. */
  lemma {:induction false} JoinAvoids(pieces: seq<string>, sep: string, c: char)
    requires |pieces| >= 1 && c !in sep
    requires forall k :: 0 <= k < |pieces| ==> c !in pieces[k]
    ensures c !in Join(pieces, sep)
    decreases |pieces|
  {
    if |pieces| > 1 {
      JoinAvoids(pieces[1..], sep, c);
    }
  }
}
