/** The string operations the pipeline borrows from JavaScript:
    `indexOf`, `replace` with a string pattern (first occurrence) and with a
    global pattern (every occurrence), `.replace(/\s+/g, ' ')`, `trim`,
    `split` on one character, `toLowerCase`, number-to-string and
    `parseInt` on decimal digits. Strings are sequences of characters and
    the character classes are the ASCII ones of module Chars. */
module Text {
  import opened Chars
  import opened Wrappers

  // ---------------------------------------------------------------------------
  // Searching
  // ---------------------------------------------------------------------------

  /** `pat` occurs in `s` starting at index `k`. */
  predicate OccursAt(s: string, pat: string, k: int) {
    0 <= k && k + |pat| <= |s| && s[k..k + |pat|] == pat
  }

  /** The first occurrence of `pat` at or after `from`. */
  function IndexFrom(s: string, pat: string, from: nat): (r: Option<nat>)
    decreases |s| - from
    ensures r.Some? ==> from <= r.value && OccursAt(s, pat, r.value)
    ensures r.Some? ==> forall j :: from <= j < r.value ==> !OccursAt(s, pat, j)
    ensures r.None? ==> forall j :: from <= j ==> !OccursAt(s, pat, j)
  {
    if from + |pat| > |s| then None
    else if s[from..from + |pat|] == pat then Some(from)
    else IndexFrom(s, pat, from + 1)
  }

  /** `s.indexOf(pat)`, with None for -1. */
  function IndexOf(s: string, pat: string): (r: Option<nat>)
    ensures r.Some? ==> OccursAt(s, pat, r.value)
    ensures r.Some? ==> forall j :: 0 <= j < r.value ==> !OccursAt(s, pat, j)
    ensures r.None? ==> forall j :: 0 <= j ==> !OccursAt(s, pat, j)
  {
    IndexFrom(s, pat, 0)
  }

  /** `s.indexOf(c)` for a single character. */
  function IndexOfChar(s: string, c: char): (r: Option<nat>)
    ensures r.Some? ==> r.value < |s| && s[r.value] == c
    ensures r.Some? ==> forall j :: 0 <= j < r.value ==> s[j] != c
    ensures r.None? ==> c !in s
  {
    if |s| == 0 then None
    else if s[0] == c then Some(0)
    else match IndexOfChar(s[1..], c)
      case None => None
      case Some(k) => Some(k + 1)
  }

  /** `s.lastIndexOf(c)` for a single character. */
  function LastIndexOfChar(s: string, c: char): (r: Option<nat>)
    ensures r.Some? ==> r.value < |s| && s[r.value] == c
    ensures r.Some? ==> forall j :: r.value < j < |s| ==> s[j] != c
    ensures r.None? ==> c !in s
  {
    if |s| == 0 then None
    else if s[|s| - 1] == c then Some(|s| - 1)
    else LastIndexOfChar(s[..|s| - 1], c)
  }

  // ---------------------------------------------------------------------------
  // Replacing
  // ---------------------------------------------------------------------------

  /** `s.replace(pat, rep)` with a string pattern: only the first occurrence
      is replaced, and `s` is returned unchanged when there is none. */
  function ReplaceFirst(s: string, pat: string, rep: string): (r: string)
    ensures IndexOf(s, pat).None? ==> r == s
    ensures IndexOf(s, pat).Some? ==>
      var k := IndexOf(s, pat).value;
      |r| == |s| - |pat| + |rep| && r[..k] == s[..k] && r[k..k + |rep|] == rep && r[k + |rep|..] == s[k + |pat|..]
  {
    match IndexOf(s, pat)
    case None => s
    case Some(k) =>
      var r := s[..k] + rep + s[k + |pat|..];
      assert r[..k] == s[..k];
      assert r[k..k + |rep|] == rep;
      assert r[k + |rep|..] == s[k + |pat|..];
      r
  }

  /** Putting the pattern back where the replacement went restores the
      original string: the first replacement loses nothing else. */
  lemma ReplaceFirstRestores(s: string, pat: string, rep: string)
    requires IndexOf(s, pat).Some?
    ensures var k := IndexOf(s, pat).value;
            var r := ReplaceFirst(s, pat, rep);
            r[..k] + pat + r[k + |rep|..] == s
  {
    var k := IndexOf(s, pat).value;
    assert s == s[..k] + s[k..k + |pat|] + s[k + |pat|..];
  }

  /** `pat` occurs nowhere in `s`. */
  ghost predicate Free(s: string, pat: string) {
    forall k :: !OccursAt(s, pat, k)
  }

  /** Every piece is free of `pat`. */
  ghost predicate AllFree(pieces: seq<string>, pat: string) {
    forall i :: 0 <= i < |pieces| ==> Free(pieces[i], pat)
  }

  /** An occurrence in the tail is an occurrence in the whole string, one
      position further on. */
  lemma FreeTail(s: string, pat: string)
    requires |s| > 0 && Free(s, pat)
    ensures Free(s[1..], pat)
  {
    forall k | 0 <= k && k + |pat| <= |s| - 1 ensures !OccursAt(s[1..], pat, k) {
      assert s[1..][k..k + |pat|] == s[k + 1..k + 1 + |pat|];
      assert !OccursAt(s, pat, k + 1);
    }
  }

  /** `s.replace(/pat/g, rep)` for a literal pattern: occurrences are
      replaced from left to right, and a replaced occurrence is not scanned
      again. */
  function ReplaceAll(s: string, pat: string, rep: string): (r: string)
    requires |pat| > 0
    decreases |s|
  {
    if |s| < |pat| then s
    else if s[..|pat|] == pat then rep + ReplaceAll(s[|pat|..], pat, rep)
    else [s[0]] + ReplaceAll(s[1..], pat, rep)
  }

  /** A string without the pattern comes back unchanged. */
  lemma {:induction false} ReplaceAllFree(s: string, pat: string, rep: string)
    requires |pat| > 0 && Free(s, pat)
    ensures ReplaceAll(s, pat, rep) == s
    decreases |s|
  {
    if |s| >= |pat| {
      assert !OccursAt(s, pat, 0);
      FreeTail(s, pat);
      ReplaceAllFree(s[1..], pat, rep);
      assert s == [s[0]] + s[1..];
    }
  }

  /** `pieces` cut `s` at occurrences of `pat` into parts holding none,
      each cut at the leftmost occurrence left, and `r` glues the same parts
      with `rep` in between. */
  ghost predicate PiecesOf(s: string, pat: string, rep: string, r: string, pieces: seq<string>) {
    |pieces| >= 1 && AllFree(pieces, pat) && Leftmost(pieces, pat)
    && Join(pieces, pat) == s && Join(pieces, rep) == r
  }

  /** No occurrence of `pat` starts inside a piece and runs on into the
      occurrence that ends it: every cut is at the leftmost occurrence, as
      a left-to-right scan makes it. */
  ghost predicate Leftmost(pieces: seq<string>, pat: string) {
    forall i, k :: 0 <= i < |pieces| - 1 && 0 <= k < |pieces[i]| ==> !OccursAt(pieces[i] + pat, pat, k)
  }

  /** Replacing every occurrence cuts the string, at its occurrences of the
      pattern, into pieces holding none, and glues the same pieces back with
      the replacement in between. */
  lemma {:induction false} ReplaceAllPieces(s: string, pat: string, rep: string)
    requires |pat| > 0
    ensures exists pieces :: PiecesOf(s, pat, rep, ReplaceAll(s, pat, rep), pieces)
    decreases |s|
  {
    if |s| < |pat| {
      assert Free(s, pat);
      assert PiecesOf(s, pat, rep, ReplaceAll(s, pat, rep), [s]);
    } else if s[..|pat|] == pat {
      var t := s[|pat|..];
      ReplaceAllPieces(t, pat, rep);
      var ps :| PiecesOf(t, pat, rep, ReplaceAll(t, pat, rep), ps);
      PiecesAfterMatch(s, pat, rep, ps);
    } else {
      var t := s[1..];
      ReplaceAllPieces(t, pat, rep);
      var ps :| PiecesOf(t, pat, rep, ReplaceAll(t, pat, rep), ps);
      PiecesAfterChar(s, pat, rep, ps);
    }
  }

  /** The cut is unique: any leftmost cut of `s` into pattern-free pieces,
      glued back with `rep`, is the left-to-right replacement. With
      `ReplaceAllPieces` this characterises `ReplaceAll` completely. */
  lemma {:induction false} PiecesDetermine(s: string, pat: string, rep: string, r: string, pieces: seq<string>)
    requires |pat| > 0 && PiecesOf(s, pat, rep, r, pieces)
    ensures r == ReplaceAll(s, pat, rep)
    decreases |s|
  {
    if |pieces| == 1 {
      ReplaceAllFree(s, pat, rep);
    } else if |pieces[0]| == 0 {
      var rest := pieces[1..];
      var t := Join(rest, pat);
      PiecesDropMatch(s, pat, rep, r, pieces);
      PiecesDetermine(t, pat, rep, Join(rest, rep), rest);
    } else {
      var qs := [pieces[0][1..]] + pieces[1..];
      PiecesDropChar(s, pat, rep, r, pieces);
      PiecesDetermine(s[1..], pat, rep, r[1..], qs);
    }
  }

  /** An empty first piece means the pattern starts `s`: the rest is cut
      by the other pieces. */
  lemma PiecesDropMatch(s: string, pat: string, rep: string, r: string, pieces: seq<string>)
    requires |pat| > 0 && PiecesOf(s, pat, rep, r, pieces)
    requires |pieces| > 1 && |pieces[0]| == 0
    ensures var rest := pieces[1..]; var t := Join(rest, pat);
            && |s| >= |pat| && s[..|pat|] == pat && s[|pat|..] == t
            && r == rep + Join(rest, rep)
            && PiecesOf(t, pat, rep, Join(rest, rep), rest)
  {
    EmptyHeadJoin(pieces, pat);
    EmptyHeadJoin(pieces, rep);
    SplitAtPrefix(s, pat, Join(pieces[1..], pat));
    PiecesTail(pieces, pat, rep);
  }

  /** Gluing pieces that start with an empty one starts with the
      separator. */
  lemma EmptyHeadJoin(ps: seq<string>, sep: string)
    requires |ps| > 1 && ps[0] == ""
    ensures Join(ps, sep) == sep + Join(ps[1..], sep)
  {
    assert ps[0] + sep == sep;
  }

  lemma SplitAtPrefix(s: string, a: string, b: string)
    requires s == a + b
    ensures |s| >= |a| && s[..|a|] == a && s[|a|..] == b
  {
  }

  /** The pieces after the first cut what follows the first cut. */
  lemma PiecesTail(pieces: seq<string>, pat: string, rep: string)
    requires |pieces| > 1 && AllFree(pieces, pat) && Leftmost(pieces, pat)
    ensures PiecesOf(Join(pieces[1..], pat), pat, rep, Join(pieces[1..], rep), pieces[1..])
  {
    LeftmostTail(pieces, pat);
    AllFreeTail(pieces, pat);
  }

  /** Gluing two or more pieces puts the separator after the first. */
  lemma JoinFirst(ps: seq<string>, sep: string)
    requires |ps| > 1
    ensures Join(ps, sep) == ps[0] + sep + Join(ps[1..], sep)
  {
  }

  /** Dropping the first piece keeps the pieces free of the pattern. */
  lemma AllFreeTail(ps: seq<string>, pat: string)
    requires |ps| >= 1 && AllFree(ps, pat)
    ensures AllFree(ps[1..], pat)
  {
    forall i | 0 <= i < |ps| - 1 ensures Free(ps[1..][i], pat) {
      assert ps[1..][i] == ps[i + 1];
    }
  }

  /** A non-empty first piece means the pattern does not start `s`: its
      first character is kept and the rest is cut by the shortened pieces. */
  lemma PiecesDropChar(s: string, pat: string, rep: string, r: string, pieces: seq<string>)
    requires |pat| > 0 && PiecesOf(s, pat, rep, r, pieces)
    requires |pieces| > 1 && |pieces[0]| > 0
    ensures var qs := [pieces[0][1..]] + pieces[1..];
            && |s| >= |pat| && s[..|pat|] != pat
            && |r| > 0 && r[0] == s[0]
            && PiecesOf(s[1..], pat, rep, r[1..], qs)
  {
    var p0 := pieces[0];
    var c := p0[0];
    var qs := [p0[1..]] + pieces[1..];
    assert [c] + p0[1..] == p0;
    assert [[c] + qs[0]] + qs[1..] == pieces;
    JoinConsHead(c, qs, pat);
    JoinConsHead(c, qs, rep);
    var t := Join(pieces[1..], pat);
    assert s == p0 + pat + t;
    assert !OccursAt(p0 + pat, pat, 0);
    assert (p0 + pat)[..|pat|] == s[..|pat|];
    FreeTail(p0, pat);
    assert AllFree(qs, pat) by {
      forall i | 0 <= i < |qs| ensures Free(qs[i], pat) {
        if i > 0 { assert qs[i] == pieces[i]; }
      }
    }
    LeftmostTail(pieces, pat);
    forall k | 0 <= k < |p0[1..]| ensures !OccursAt(p0[1..] + pat, pat, k) {
      assert (p0[1..] + pat)[k..k + |pat|] == (p0 + pat)[k + 1..k + 1 + |pat|];
      assert !OccursAt(p0 + pat, pat, k + 1);
    }
    LeftmostCons(p0[1..], pieces[1..], pat);
  }

  /** An occurrence at the front adds an empty first piece. */
  lemma PiecesAfterMatch(s: string, pat: string, rep: string, ps: seq<string>)
    requires |pat| > 0 && |s| >= |pat| && s[..|pat|] == pat
    requires PiecesOf(s[|pat|..], pat, rep, ReplaceAll(s[|pat|..], pat, rep), ps)
    ensures PiecesOf(s, pat, rep, ReplaceAll(s, pat, rep), [""] + ps)
  {
    var t := s[|pat|..];
    var qs := [""] + ps;
    assert qs[1..] == ps;
    assert Join(qs, pat) == "" + pat + t;
    assert s == s[..|pat|] + t;
    assert Join(qs, rep) == "" + rep + ReplaceAll(t, pat, rep);
    assert Free("", pat);
    assert AllFree(qs, pat) by {
      forall i | 0 <= i < |qs| ensures Free(qs[i], pat) {
        if i > 0 { assert qs[i] == ps[i - 1]; }
      }
    }
    assert Leftmost(qs, pat) by {
      forall i, k | 0 <= i < |qs| - 1 && 0 <= k < |qs[i]| ensures !OccursAt(qs[i] + pat, pat, k) {
        assert qs[i] == ps[i - 1];
      }
    }
  }

  /** A character that starts no occurrence joins the first piece. */
  lemma PiecesAfterChar(s: string, pat: string, rep: string, ps: seq<string>)
    requires |pat| > 0 && |s| >= |pat| && s[..|pat|] != pat
    requires PiecesOf(s[1..], pat, rep, ReplaceAll(s[1..], pat, rep), ps)
    ensures PiecesOf(s, pat, rep, ReplaceAll(s, pat, rep), [[s[0]] + ps[0]] + ps[1..])
  {
    var t := s[1..];
    var head := [s[0]] + ps[0];
    var qs := [head] + ps[1..];
    JoinConsHead(s[0], ps, pat);
    JoinConsHead(s[0], ps, rep);
    assert s == [s[0]] + t;
    assert ReplaceAll(s, pat, rep) == [s[0]] + ReplaceAll(t, pat, rep);
    JoinStartsWith(qs, pat);
    FreeHead(s, head, pat, ps[0]);
    assert AllFree(qs, pat) by {
      forall i | 0 <= i < |qs| ensures Free(qs[i], pat) {
        if i > 0 { assert qs[i] == ps[i]; }
      }
    }
    LeftmostHead(s, pat, ps);
  }

  /** The first cut stays leftmost when a character that starts no
      occurrence joins the first piece. */
  lemma LeftmostHead(s: string, pat: string, ps: seq<string>)
    requires |pat| > 0 && |s| >= |pat| && s[..|pat|] != pat
    requires |ps| >= 1 && Leftmost(ps, pat) && Join(ps, pat) == s[1..]
    ensures Leftmost([[s[0]] + ps[0]] + ps[1..], pat)
  {
    var head := [s[0]] + ps[0];
    LeftmostTail(ps, pat);
    if |ps| > 1 {
      var tail := Join(ps[1..], pat);
      assert s == [s[0]] + ps[0] + pat + tail by {
        assert s == [s[0]] + s[1..];
      }
      forall k | 0 <= k < |head| ensures !OccursAt(head + pat, pat, k) {
        HeadCutLeftmost(s[0], ps[0], pat, tail, k);
      }
    }
    LeftmostCons(head, ps[1..], pat);
  }

  /** Dropping the first piece keeps the cuts leftmost. */
  lemma LeftmostTail(ps: seq<string>, pat: string)
    requires |ps| >= 1 && Leftmost(ps, pat)
    ensures Leftmost(ps[1..], pat)
  {
    forall i, k | 0 <= i < |ps[1..]| - 1 && 0 <= k < |ps[1..][i]| ensures !OccursAt(ps[1..][i] + pat, pat, k) {
      assert ps[1..][i] == ps[i + 1];
    }
  }

  /** A first piece cut at its leftmost occurrence in front of leftmost
      cut pieces. */
  lemma LeftmostCons(h: string, rest: seq<string>, pat: string)
    requires Leftmost(rest, pat)
    requires |rest| > 0 ==> forall k :: 0 <= k < |h| ==> !OccursAt(h + pat, pat, k)
    ensures Leftmost([h] + rest, pat)
  {
    var qs := [h] + rest;
    forall i, k | 0 <= i < |qs| - 1 && 0 <= k < |qs[i]| ensures !OccursAt(qs[i] + pat, pat, k) {
      if i > 0 {
        assert qs[i] == rest[i - 1];
      }
    }
  }

  /** A character that starts no occurrence, in front of a leftmost cut
      piece, starts no occurrence running into the cut either. */
  lemma HeadCutLeftmost(c: char, p: string, pat: string, tail: string, k: nat)
    requires |pat| > 0 && ([c] + p + pat + tail)[..|pat|] != pat
    requires forall j :: 0 <= j < |p| ==> !OccursAt(p + pat, pat, j)
    requires k < 1 + |p|
    ensures !OccursAt([c] + p + pat, pat, k)
  {
    var x := [c] + p + pat;
    if k == 0 {
      assert x[..|pat|] == ([c] + p + pat + tail)[..|pat|];
    } else {
      assert x[k..k + |pat|] == (p + pat)[k - 1..k - 1 + |pat|];
      assert !OccursAt(p + pat, pat, k - 1);
    }
  }

  /** Gluing pieces whose first piece has an extra character in front
      puts that character in front of the glued string. */
  lemma JoinConsHead(c: char, ps: seq<string>, sep: string)
    requires |ps| >= 1
    ensures Join([[c] + ps[0]] + ps[1..], sep) == [c] + Join(ps, sep)
  {
    var qs := [[c] + ps[0]] + ps[1..];
    if |ps| > 1 {
      assert qs[1..] == ps[1..];
      assert Join(qs, sep) == ([c] + ps[0]) + sep + Join(ps[1..], sep);
      assert Join(ps, sep) == ps[0] + sep + Join(ps[1..], sep);
    }
  }

  /** The glued string starts with the first piece. */
  lemma JoinStartsWith(ps: seq<string>, sep: string)
    requires |ps| >= 1
    ensures |ps[0]| <= |Join(ps, sep)| && Join(ps, sep)[..|ps[0]|] == ps[0]
  {
    if |ps| > 1 {
      assert Join(ps, sep) == ps[0] + (sep + Join(ps[1..], sep));
    }
  }

  /** A prefix of `s` that is one character followed by a piece free of
      `pat` is itself free of `pat`, when `pat` does not start `s`. */
  lemma FreeHead(s: string, head: string, pat: string, p: string)
    requires |pat| > 0 && |s| >= |pat| && s[..|pat|] != pat
    requires head == [s[0]] + p && |head| <= |s| && s[..|head|] == head && Free(p, pat)
    ensures Free(head, pat)
  {
    forall k | 0 <= k && k + |pat| <= |head| ensures !OccursAt(head, pat, k) {
      if k == 0 {
        assert head[..|pat|] == s[..|pat|];
      } else {
        assert head[k..k + |pat|] == p[k - 1..k - 1 + |pat|];
        assert !OccursAt(p, pat, k - 1);
      }
    }
  }

  /** If the replacement result starts with `q`, and `q` does not contain the
      replacement character, then the input already started with `q`. */
  lemma {:induction false} ReplaceAllPrefix(t: string, pat: string, c: char, q: string)
    requires |pat| > 0 && c !in q
    ensures |q| <= |ReplaceAll(t, pat, [c])| && ReplaceAll(t, pat, [c])[..|q|] == q
            ==> |q| <= |t| && t[..|q|] == q
    decreases |t|
  {
    var r := ReplaceAll(t, pat, [c]);
    if |q| == 0 || |t| < |pat| {
    } else if t[..|pat|] == pat {
      assert r[0] == c;
    } else {
      var r' := ReplaceAll(t[1..], pat, [c]);
      assert r == [t[0]] + r';
      ReplaceAllPrefix(t[1..], pat, c, q[1..]);
      if |q| <= |r| && r[..|q|] == q {
        assert q[1..] == r'[..|q| - 1];
        assert t[..|q|] == [t[0]] + t[1..][..|q| - 1];
      }
    }
  }

  /** Replacing every occurrence of `pat` by a single character that `pat`
      does not contain leaves no occurrence of `pat` behind: the rewritten
      text cannot form new ones. */
  lemma {:induction false} ReplaceAllLeavesNone(s: string, pat: string, c: char)
    requires |pat| > 0 && c !in pat
    ensures forall k :: !OccursAt(ReplaceAll(s, pat, [c]), pat, k)
    decreases |s|
  {
    var r := ReplaceAll(s, pat, [c]);
    if |s| < |pat| {
    } else if s[..|pat|] == pat {
      var r' := ReplaceAll(s[|pat|..], pat, [c]);
      assert r == [c] + r';
      ReplaceAllLeavesNone(s[|pat|..], pat, c);
      forall k | 0 <= k ensures !OccursAt(r, pat, k) {
        if k == 0 {
          assert r[0] == c;
        } else if k + |pat| <= |r| {
          assert r[k..k + |pat|] == r'[k - 1..k - 1 + |pat|];
          assert !OccursAt(r', pat, k - 1);
        }
      }
    } else {
      var r' := ReplaceAll(s[1..], pat, [c]);
      assert r == [s[0]] + r';
      ReplaceAllLeavesNone(s[1..], pat, c);
      forall k | 0 <= k ensures !OccursAt(r, pat, k) {
        if k == 0 {
          var q := pat[1..];
          assert c !in q by {
            forall i | 0 <= i < |q| ensures q[i] != c { assert q[i] == pat[i + 1]; }
          }
          ReplaceAllPrefix(s[1..], pat, c, q);
          if s[0] == pat[0] && |pat| <= |r| {
            assert pat == [pat[0]] + q;
            assert s[..|pat|] == [s[0]] + s[1..][..|q|];
            assert s[1..][..|q|] != q;
            assert r'[..|q|] != q;
            assert r[..|pat|] == [r[0]] + r'[..|q|];
          }
        } else if k + |pat| <= |r| {
          assert r[k..k + |pat|] == r'[k - 1..k - 1 + |pat|];
          assert !OccursAt(r', pat, k - 1);
        }
      }
    }
  }

  // ---------------------------------------------------------------------------
  // White space
  // ---------------------------------------------------------------------------

  /** The white-space characters removed: the non-space content of a string. */
  function NonSpace(s: string): (r: string)
    ensures forall i :: 0 <= i < |r| ==> !IsSpace(r[i])
    ensures |r| <= |s|
  {
    if |s| == 0 then []
    else (if IsSpace(s[0]) then [] else [s[0]]) + NonSpace(s[1..])
  }

  /** `s` with its leading run of white space removed. */
  function DropSpaces(s: string): (r: string)
    ensures |r| <= |s| && r == s[|s| - |r|..]
    ensures forall i :: 0 <= i < |s| - |r| ==> IsSpace(s[i])
    ensures |r| > 0 ==> !IsSpace(r[0])
    ensures NonSpace(r) == NonSpace(s)
  {
    if |s| == 0 || !IsSpace(s[0]) then s else DropSpaces(s[1..])
  }

  /** No white space but the plain space, and never two spaces in a row. */
  predicate Collapsed(s: string) {
    && (forall i :: 0 <= i < |s| ==> IsSpace(s[i]) ==> s[i] == ' ')
    && (forall i :: 0 <= i < |s| - 1 ==> !(s[i] == ' ' && s[i + 1] == ' '))
  }

  /** `s.replace(/\s+/g, ' ')`: every maximal run of white space becomes one
      space. */
  function CollapseSpaces(s: string): (r: string)
    ensures Collapsed(r)
    ensures NonSpace(r) == NonSpace(s)
    ensures |r| <= |s|
    ensures |r| > 0 && r[0] == ' ' <==> |s| > 0 && IsSpace(s[0])
    ensures |r| == 0 <==> |s| == 0
    decreases |s|
  {
    if |s| == 0 then []
    else if IsSpace(s[0]) then
      var rest := DropSpaces(s);
      [' '] + CollapseSpaces(rest)
    else [s[0]] + CollapseSpaces(s[1..])
  }

  /** Collapsing keeps the runs of non-white-space: only the white space
      between them changes. */
  lemma {:induction false} CollapseKeepsRuns(s: string)
    ensures Runs(CollapseSpaces(s)) == Runs(s)
    decreases |s|
  {
    if |s| > 0 {
      if IsSpace(s[0]) {
        var rest := DropSpaces(s);
        var c := CollapseSpaces(rest);
        CollapseKeepsRuns(rest);
        assert CollapseSpaces(s) == [' '] + c;
        RunsSpaceHead([' '] + c);
        assert ([' '] + c)[1..] == c;
        RunsDrop(s);
      } else {
        var c := CollapseSpaces(s[1..]);
        CollapseKeepsRuns(s[1..]);
        assert CollapseSpaces(s) == [s[0]] + c;
        CollapseRunsCons(s[0], s[1..], c);
        assert s == [s[0]] + s[1..];
      }
    }
  }

  /** Collapsing ends in a space exactly when the text ends in white
      space. */
  lemma {:induction false} CollapseLast(s: string)
    ensures var r := CollapseSpaces(s);
            |r| > 0 && r[|r| - 1] == ' ' <==> |s| > 0 && IsSpace(s[|s| - 1])
    decreases |s|
  {
    if |s| > 0 {
      if IsSpace(s[0]) {
        CollapseLast(DropSpaces(s));
        CollapseLastSpace(s, DropSpaces(s), CollapseSpaces(DropSpaces(s)));
      } else {
        CollapseLast(s[1..]);
        CollapseLastWord(s, s[1..], CollapseSpaces(s[1..]));
      }
    }
  }

  /** `CollapseLast` for a text starting with white space, given it for
      the text `d` behind that white space. */
  lemma CollapseLastSpace(s: string, d: string, c: string)
    requires |s| > 0 && IsSpace(s[0])
    requires d == DropSpaces(s) && c == CollapseSpaces(d)
    requires |c| > 0 && c[|c| - 1] == ' ' <==> |d| > 0 && IsSpace(d[|d| - 1])
    ensures var r := CollapseSpaces(s);
            |r| > 0 && r[|r| - 1] == ' ' <==> IsSpace(s[|s| - 1])
  {
    DropSpacesLast(s);
    CollapseSpaceHead(s);
    LastAfterCons(' ', c, d, s);
  }

  /** `CollapseLast` for a text starting with a non-space, given it for
      the text `t` behind that character. */
  lemma CollapseLastWord(s: string, t: string, c: string)
    requires |s| > 0 && !IsSpace(s[0])
    requires t == s[1..] && c == CollapseSpaces(t)
    requires |c| > 0 && c[|c| - 1] == ' ' <==> |t| > 0 && IsSpace(t[|t| - 1])
    ensures var r := CollapseSpaces(s);
            |r| > 0 && r[|r| - 1] == ' ' <==> IsSpace(s[|s| - 1])
  {
    assert |t| > 0 ==> t[|t| - 1] == s[|s| - 1];
    CollapseWordHead(s);
    LastAfterCons(s[0], c, t, s);
  }

  /** Leading white space collapses to one space. */
  lemma CollapseSpaceHead(s: string)
    requires |s| > 0 && IsSpace(s[0])
    ensures CollapseSpaces(s) == [' '] + CollapseSpaces(DropSpaces(s))
  {
  }

  /** A leading non-space is kept. */
  lemma CollapseWordHead(s: string)
    requires |s| > 0 && !IsSpace(s[0])
    ensures CollapseSpaces(s) == [s[0]] + CollapseSpaces(s[1..])
  {
  }

  /** One step of `CollapseLast`: the collapsed rest `c` of the text `u`
      ends in a space exactly when the rest `t` ends in white space, so
      `[x] + c` does exactly when `u` does. */
  lemma LastAfterCons(x: char, c: string, t: string, u: string)
    requires |u| > 0
    requires |c| == 0 <==> |t| == 0
    requires |c| > 0 && c[|c| - 1] == ' ' <==> |t| > 0 && IsSpace(t[|t| - 1])
    requires |t| > 0 ==> t[|t| - 1] == u[|u| - 1]
    requires |t| == 0 ==> (x == ' ' <==> IsSpace(u[|u| - 1]))
    ensures var r := [x] + c; r[|r| - 1] == ' ' <==> IsSpace(u[|u| - 1])
  {
    LastOfCons(x, c);
  }

  /** The text left after leading white space ends as the text does; when
      nothing is left, the text was all white space. */
  lemma DropSpacesLast(s: string)
    requires |s| > 0
    ensures var d := DropSpaces(s);
            && (|d| > 0 ==> d[|d| - 1] == s[|s| - 1])
            && (|d| == 0 ==> IsSpace(s[|s| - 1]))
  {
  }

  /** The last character of a text with one character in front. */
  lemma LastOfCons(x: char, c: string)
    ensures var y := [x] + c;
            y[|y| - 1] == if |c| > 0 then c[|c| - 1] else x
  {
  }

  // ---------------------------------------------------------------------------
  // Runs of non-white-space
  // ---------------------------------------------------------------------------

  /** The number of characters `s` starts with before its first white
      space. */
  function WordLength(s: string): (n: nat)
    ensures n <= |s|
    ensures forall i :: 0 <= i < n ==> !IsSpace(s[i])
    ensures n < |s| ==> IsSpace(s[n])
  {
    if |s| == 0 || IsSpace(s[0]) then 0 else 1 + WordLength(s[1..])
  }

  /** The maximal runs of non-white-space characters of `s`, in order:
      its words, whatever white space separates them. */
  function Runs(s: string): seq<string>
    decreases |s|
  {
    if |s| == 0 then []
    else if IsSpace(s[0]) then Runs(s[1..])
    else
      var n := WordLength(s);
      [s[..n]] + Runs(s[n..])
  }

  /** Leading white space starts no run. */
  lemma RunsSpaceHead(s: string)
    requires |s| > 0 && IsSpace(s[0])
    ensures Runs(s) == Runs(s[1..])
  {
  }

  lemma RunsDrop(s: string)
    ensures Runs(DropSpaces(s)) == Runs(s)
  {
    var d := DropSpaces(s);
    RunsSkip(s, |s| - |d|);
  }

  /** A non-space character in front joins the first run when the text
      starts with one, and is a run of its own otherwise. */
  lemma RunsCons(c: char, x: string)
    requires !IsSpace(c)
    ensures |x| > 0 && !IsSpace(x[0]) ==> |Runs(x)| > 0 && Runs([c] + x) == [[c] + Runs(x)[0]] + Runs(x)[1..]
    ensures !(|x| > 0 && !IsSpace(x[0])) ==> Runs([c] + x) == [[c]] + Runs(x)
  {
    if |x| > 0 && !IsSpace(x[0]) {
      RunsConsWord(c, x);
    } else {
      RunsConsAlone(c, x);
    }
  }

  /** In front of a word, the character joins it. */
  lemma RunsConsWord(c: char, x: string)
    requires !IsSpace(c) && |x| > 0 && !IsSpace(x[0])
    ensures |Runs(x)| > 0 && Runs([c] + x) == [[c] + Runs(x)[0]] + Runs(x)[1..]
  {
    var y := [c] + x;
    var n := WordLength(x);
    WordLengthCons(c, x);
    RunsWord(y);
    RunsWord(x);
    var w, rest := x[..n], Runs(x[n..]);
    assert y[..1 + n] == [c] + w;
    assert y[1 + n..] == x[n..];
    HeadTail(w, rest);
  }

  /** A text that starts with a non-space begins with its first word. */
  lemma RunsWord(s: string)
    requires |s| > 0 && !IsSpace(s[0])
    ensures Runs(s) == [s[..WordLength(s)]] + Runs(s[WordLength(s)..])
  {
  }

  lemma HeadTail<T>(a: T, r: seq<T>)
    ensures ([a] + r)[0] == a && ([a] + r)[1..] == r
  {
  }

  /** In front of white space or nothing, the character is a run of its
      own. */
  lemma RunsConsAlone(c: char, x: string)
    requires !IsSpace(c) && !(|x| > 0 && !IsSpace(x[0]))
    ensures Runs([c] + x) == [[c]] + Runs(x)
  {
    var y := [c] + x;
    WordLengthCons(c, x);
    assert WordLength(y) == 1;
    assert y[..1] == [c] && y[1..] == x;
  }

  lemma WordLengthCons(c: char, x: string)
    requires !IsSpace(c)
    ensures WordLength([c] + x) == 1 + WordLength(x)
  {
    assert ([c] + x)[1..] == x;
  }

  /** Two texts with the same runs that agree on starting with a
      non-space keep the same runs behind the same first character. */
  lemma CollapseRunsCons(c: char, x: string, y: string)
    requires !IsSpace(c) && Runs(y) == Runs(x) && Collapsed(y)
    requires |y| > 0 && y[0] == ' ' <==> |x| > 0 && IsSpace(x[0])
    requires |y| == 0 <==> |x| == 0
    ensures Runs([c] + y) == Runs([c] + x)
  {
    RunsCons(c, x);
    RunsCons(c, y);
    if |y| > 0 {
      assert IsSpace(y[0]) ==> y[0] == ' ';
    }
  }

  /** Skipping white space at the front keeps the runs. */
  lemma {:induction false} RunsSkip(s: string, i: nat)
    requires i <= |s|
    requires forall k :: 0 <= k < i ==> IsSpace(s[k])
    ensures Runs(s[i..]) == Runs(s)
  {
    if i > 0 {
      RunsSpaceHead(s);
      assert s[1..][i - 1..] == s[i..];
      RunsSkip(s[1..], i - 1);
    }
  }

  /** White space at the end adds no run. */
  lemma {:induction false} RunsSpaceTail(x: string, sp: string)
    requires forall k :: 0 <= k < |sp| ==> IsSpace(sp[k])
    ensures Runs(x + sp) == Runs(x)
    decreases |x|
  {
    var y := x + sp;
    if |x| == 0 {
      assert y == sp;
      RunsSkip(sp, |sp|);
    } else {
      assert y[1..] == x[1..] + sp;
      RunsSpaceTail(x[1..], sp);
      if IsSpace(x[0]) {
        RunsSpaceHead(y);
        RunsSpaceHead(x);
      } else {
        assert y == [x[0]] + (x[1..] + sp);
        assert x == [x[0]] + x[1..];
        RunsCons(x[0], x[1..] + sp);
        RunsCons(x[0], x[1..]);
        if |x| == 1 && |sp| > 0 {
          assert (x[1..] + sp)[0] == sp[0];
        }
      }
    }
  }

  /** Trimming keeps the runs. */
  lemma RunsTrim(s: string)
    ensures Runs(Trim(s)) == Runs(s)
  {
    var a := LeadingSpaces(s);
    assert Runs(s[a..]) == Runs(s) by {
      RunsSkip(s, a);
    }
    if a == |s| {
      assert Trim(s) == [] && s[a..] == [];
    } else {
      var b := TrailingSpaces(s);
      assert a + b < |s| by {
        assert !IsSpace(s[a]);
      }
      assert Trim(s) == s[a..|s| - b];
      RunsTrimmedTail(s, a, b);
    }
  }

  /** White space cut off the end of a text leaves its runs. */
  lemma RunsTrimmedTail(s: string, a: nat, b: nat)
    requires a + b <= |s|
    requires forall k :: |s| - b <= k < |s| ==> IsSpace(s[k])
    ensures Runs(s[a..|s| - b]) == Runs(s[a..])
  {
    var sp := s[|s| - b..];
    forall k | 0 <= k < |sp| ensures IsSpace(sp[k]) {
      assert sp[k] == s[|s| - b + k];
    }
    assert s[a..] == s[a..|s| - b] + sp;
    RunsSpaceTail(s[a..|s| - b], sp);
  }

  /** A collapsed text with no space at either end is its runs joined by
      single spaces: nothing else is left to choose. */
  lemma {:induction false} CollapsedJoinsRuns(r: string)
    requires Collapsed(r)
    requires |r| > 0 ==> r[0] != ' ' && r[|r| - 1] != ' '
    ensures r == Join(Runs(r), " ")
    decreases |r|
  {
    if |r| > 0 {
      var n := WordLength(r);
      if n == |r| {
        RunsWhole(r);
      } else {
        var rest := r[n + 1..];
        CollapsedAfterWord(r, n);
        CollapsedJoinsRuns(rest);
        RunsAfterWord(r, n);
        RunsNonEmpty(rest);
        JoinCons(r[..n], Runs(rest));
      }
    }
  }

  /** A text without white space is one run. */
  lemma RunsWhole(r: string)
    requires |r| > 0 && WordLength(r) == |r|
    ensures Runs(r) == [r]
  {
    assert !IsSpace(r[0]);
    assert r[..|r|] == r && r[|r|..] == [];
  }

  /** What follows the first word of a collapsed text without a space at
      either end is again such a text, behind one space. */
  lemma CollapsedAfterWord(r: string, n: nat)
    requires Collapsed(r) && |r| > 0 && r[0] != ' ' && r[|r| - 1] != ' '
    requires n == WordLength(r) < |r|
    ensures n + 1 < |r| && r[n] == ' '
    ensures var rest := r[n + 1..];
            Collapsed(rest) && rest[0] != ' ' && rest[|rest| - 1] != ' '
  {
    assert IsSpace(r[n]);
    SliceCollapsed(r, n + 1, |r|);
    assert r[n + 1..|r|] == r[n + 1..];
  }

  /** The runs of a text that starts with a word followed by one space. */
  lemma RunsAfterWord(r: string, n: nat)
    requires |r| > 0 && !IsSpace(r[0]) && n == WordLength(r) < |r| && r[n] == ' '
    ensures Runs(r) == [r[..n]] + Runs(r[n + 1..])
    ensures r == r[..n] + " " + r[n + 1..]
  {
    assert Runs(r) == [r[..n]] + Runs(r[n..]);
    assert Runs(r[n..]) == Runs(r[n + 1..]) by {
      assert r[n..][1..] == r[n + 1..];
      RunsSpaceHead(r[n..]);
    }
    SpaceAt(r, n);
  }

  lemma SpaceAt(r: string, n: nat)
    requires n < |r| && r[n] == ' '
    ensures r == r[..n] + " " + r[n + 1..]
  {
    assert r == r[..n] + [r[n]] + r[n + 1..];
  }

  lemma ConcatAssoc<T>(a: seq<T>, b: seq<T>, c: seq<T>)
    ensures a + (b + c) == (a + b) + c
  {
  }

  /** Splitting a collapsed text that starts with a non-space on the space
      gives its runs, and one empty piece more when it ends in a space. */
  lemma {:induction false} SplitRuns(c: string)
    requires Collapsed(c) && |c| > 0 && c[0] != ' '
    ensures Split(c, ' ') == Runs(c) + Edge(c[|c| - 1] == ' ')
    decreases |c|
  {
    var n := WordLength(c);
    var last := Edge(c[|c| - 1] == ' ');
    if n == |c| {
      RunsWhole(c);
      SplitWhole(c);
      assert !IsSpace(c[|c| - 1]);
      assert last == [];
    } else {
      var rest := c[n + 1..];
      assert c[n] == ' ' by { assert IsSpace(c[n]); }
      RunsAfterWord(c, n);
      SplitAfterWord(c, n);
      if |rest| == 0 {
        assert c[|c| - 1] == ' ';
        assert Split(rest, ' ') == [""] && Runs(rest) == [];
        assert Split(c, ' ') == [c[..n]] + [""];
      } else {
        SplitRunsRest(c, n);
        SplitRuns(rest);
        assert Split(rest, ' ') == Runs(rest) + last;
        assert Split(c, ' ') == [c[..n]] + (Runs(rest) + last);
        ConcatAssoc([c[..n]], Runs(rest), last);
      }
    }
  }

  /** A text without white space splits into itself. */
  lemma SplitWhole(c: string)
    requires |c| > 0 && WordLength(c) == |c|
    ensures Split(c, ' ') == [c]
  {
    assert forall i :: 0 <= i < |c| ==> c[i] != ' ';
  }

  /** The space after the first word is the first split point. */
  lemma SplitAfterWord(c: string, n: nat)
    requires n == WordLength(c) < |c| && c[n] == ' '
    ensures Split(c, ' ') == [c[..n]] + Split(c[n + 1..], ' ')
  {
    assert forall i :: 0 <= i < n ==> c[i] != ' ';
    assert IndexOfChar(c, ' ') == Some(n);
  }

  /** Behind the first word and its space, a collapsed text goes on with a
      non-space and keeps its last character. */
  lemma SplitRunsRest(c: string, n: nat)
    requires Collapsed(c) && n < |c| - 1 && c[n] == ' '
    ensures var rest := c[n + 1..];
            Collapsed(rest) && rest[0] != ' ' && rest[|rest| - 1] == c[|c| - 1]
  {
    SliceCollapsed(c, n + 1, |c|);
    assert c[n + 1..|c|] == c[n + 1..];
  }

  /** An empty piece where white space ends the text, and none
      otherwise. */
  function Edge(white: bool): seq<string> {
    if white then [""] else []
  }

  /** The pieces of `s.split(/\s+/)` are the runs of `s`, behind an empty
      piece when `s` starts with white space and before one when it ends
      with white space; the empty text is one empty piece. */
  lemma SplitSpacesRuns(s: string)
    ensures SplitSpaces(s) == if |s| == 0 then [""]
                              else Edge(IsSpace(s[0])) + Runs(s) + Edge(IsSpace(s[|s| - 1]))
  {
    var c := CollapseSpaces(s);
    assert SplitSpaces(s) == Split(c, ' ');
    if |s| > 0 {
      CollapseLast(s);
      CollapseKeepsRuns(s);
      SplitCollapsed(c);
    }
  }

  /** Splitting a collapsed text on the space gives its runs, with an
      empty piece for a space at either end. */
  lemma SplitCollapsed(c: string)
    requires Collapsed(c) && |c| > 0
    ensures Split(c, ' ') == Edge(c[0] == ' ') + Runs(c) + Edge(c[|c| - 1] == ' ')
  {
    if c[0] == ' ' {
      SplitLeadingSpace(c);
    } else {
      SplitRuns(c);
      NilConcat(Runs(c));
    }
  }

  /** A collapsed text that starts with a space splits into an empty piece
      followed by the pieces of the rest. */
  lemma SplitLeadingSpace(c: string)
    requires Collapsed(c) && |c| > 0 && c[0] == ' '
    ensures Split(c, ' ') == [""] + Runs(c) + Edge(c[|c| - 1] == ' ')
  {
    var rest := c[1..];
    var last := Edge(c[|c| - 1] == ' ');
    SplitAfterSpace(c);
    RunsSpaceHead(c);
    if |rest| > 0 {
      SplitRunsRest(c, 0);
      SplitRuns(rest);
      assert Split(rest, ' ') == Runs(rest) + last;
      ConcatAssoc([""], Runs(rest), last);
    } else {
      assert Split(rest, ' ') == [""] && Runs(c) == [];
      assert last == [""];
      NilConcat<string>([""]);
      ConcatNil<string>([""]);
    }
  }

  lemma NilConcat<T>(a: seq<T>)
    ensures [] + a == a
  {
  }

  lemma ConcatNil<T>(a: seq<T>)
    ensures a + [] == a
  {
  }

  lemma SplitAfterSpace(c: string)
    requires |c| > 0 && c[0] == ' '
    ensures Split(c, ' ') == [""] + Split(c[1..], ' ')
  {
    assert IndexOfChar(c, ' ') == Some(0);
    assert c[..0] == "";
  }

  /** A text with a non-space character has a run. */
  lemma RunsNonEmpty(s: string)
    requires |s| > 0 && !IsSpace(s[0])
    ensures |Runs(s)| > 0
  {
  }

  /** Joining a piece in front of at least one more. */
  lemma JoinCons(p: string, ps: seq<string>)
    requires |ps| > 0
    ensures Join([p] + ps, " ") == p + " " + Join(ps, " ")
  {
    assert ([p] + ps)[1..] == ps;
  }


  /** The number of white-space characters `s` starts with. */
  function LeadingSpaces(s: string): (n: nat)
    ensures n <= |s|
    ensures forall i :: 0 <= i < n ==> IsSpace(s[i])
    ensures n < |s| ==> !IsSpace(s[n])
  {
    if |s| == 0 || !IsSpace(s[0]) then 0 else 1 + LeadingSpaces(s[1..])
  }

  /** The number of white-space characters `s` ends with. */
  function TrailingSpaces(s: string): (n: nat)
    ensures n <= |s|
    ensures forall i :: |s| - n <= i < |s| ==> IsSpace(s[i])
    ensures n < |s| ==> !IsSpace(s[|s| - n - 1])
  {
    if |s| == 0 || !IsSpace(s[|s| - 1]) then 0 else 1 + TrailingSpaces(s[..|s| - 1])
  }

  /** `r` is `s` with white space, and only white space, cut off both
      ends. */
  ghost predicate TrimOf(s: string, r: string) {
    exists i, j :: && 0 <= i <= j <= |s| && r == s[i..j]
                   && (forall k :: 0 <= k < i ==> IsSpace(s[k]))
                   && (forall k :: j <= k < |s| ==> IsSpace(s[k]))
  }

  /** `s.trim()`: the result is a slice of `s` that drops only white space,
      all of it at either end, so every other character is kept. */
  function Trim(s: string): (r: string)
    ensures exists i, j :: 0 <= i <= j <= |s| && r == s[i..j]
                           && (forall k :: 0 <= k < i ==> IsSpace(s[k]))
                           && (forall k :: j <= k < |s| ==> IsSpace(s[k]))
    ensures |r| > 0 ==> !IsSpace(r[0]) && !IsSpace(r[|r| - 1])
    ensures NonSpace(r) == NonSpace(s)
  {
    var a := LeadingSpaces(s);
    if a == |s| then
      assert s[|s|..|s|] == [];
      SpacesOnly(s);
      []
    else
      var b := TrailingSpaces(s);
      assert a + b < |s| by {
        assert !IsSpace(s[a]);
      }
      SliceNonSpace(s, a, |s| - b);
      s[a..|s| - b]
  }

  /** White space has no non-space content. */
  lemma {:induction false} SpacesOnly(s: string)
    requires forall k :: 0 <= k < |s| ==> IsSpace(s[k])
    ensures NonSpace(s) == []
    decreases |s|
  {
    if |s| > 0 {
      SpacesOnly(s[1..]);
    }
  }

  /** The non-space content of a concatenation is the concatenation of the
      non-space contents. */
  lemma {:induction false} NonSpaceConcat(a: string, b: string)
    ensures NonSpace(a + b) == NonSpace(a) + NonSpace(b)
    decreases |a|
  {
    if |a| > 0 {
      assert (a + b)[1..] == a[1..] + b;
      NonSpaceConcat(a[1..], b);
    } else {
      assert a + b == b;
    }
  }

  /** Cutting white space off both ends keeps the non-space content. */
  lemma {:induction false} SliceNonSpace(s: string, i: nat, j: nat)
    requires i <= j <= |s|
    requires forall k :: 0 <= k < i ==> IsSpace(s[k])
    requires forall k :: j <= k < |s| ==> IsSpace(s[k])
    ensures NonSpace(s[i..j]) == NonSpace(s)
  {
    var a, b, c := s[..i], s[i..j], s[j..];
    assert forall k :: 0 <= k < |a| ==> IsSpace(a[k]) by {
      forall k | 0 <= k < |a| ensures IsSpace(a[k]) { assert a[k] == s[k]; }
    }
    assert forall k :: 0 <= k < |c| ==> IsSpace(c[k]) by {
      forall k | 0 <= k < |c| ensures IsSpace(c[k]) { assert c[k] == s[j + k]; }
    }
    assert s == (a + b) + c;
    SpacesAround(s, a, b, c);
  }

  /** White space around a string adds no non-space content. */
  lemma {:induction false} SpacesAround(s: string, a: string, b: string, c: string)
    requires s == (a + b) + c
    requires forall k :: 0 <= k < |a| ==> IsSpace(a[k])
    requires forall k :: 0 <= k < |c| ==> IsSpace(c[k])
    ensures NonSpace(s) == NonSpace(b)
  {
    NonSpaceConcat(a + b, c);
    NonSpaceConcat(a, b);
    SpacesOnly(a);
    SpacesOnly(c);
    assert NonSpace(a + b) == NonSpace(b);
  }

  /** Trimming a collapsed string keeps it collapsed; it now has neither a
      leading nor a trailing space. */
  lemma TrimCollapsed(s: string)
    requires Collapsed(s)
    ensures Collapsed(Trim(s))
  {
    var r := Trim(s);
    var i, j :| 0 <= i <= j <= |s| && r == s[i..j];
    SliceCollapsed(s, i, j);
  }

  /** A slice of a collapsed string is collapsed. */
  lemma SliceCollapsed(s: string, i: nat, j: nat)
    requires Collapsed(s) && i <= j <= |s|
    ensures Collapsed(s[i..j])
  {
    var r := s[i..j];
    forall k | 0 <= k < |r| - 1 ensures !(r[k] == ' ' && r[k + 1] == ' ') {
      assert r[k] == s[i + k] && r[k + 1] == s[i + k + 1];
    }
    forall k | 0 <= k < |r| ensures IsSpace(r[k]) ==> r[k] == ' ' {
      assert r[k] == s[i + k];
    }
  }

  // ---------------------------------------------------------------------------
  // Splitting and joining
  // ---------------------------------------------------------------------------

  /** The pieces joined with `sep` between consecutive ones. */
  function Join(pieces: seq<string>, sep: string): string {
    if |pieces| == 0 then ""
    else if |pieces| == 1 then pieces[0]
    else pieces[0] + sep + Join(pieces[1..], sep)
  }

  /** `s.split(sep)` for a one-character separator: at least one piece, no
      piece contains the separator, and joining the pieces back gives `s`. */
  function Split(s: string, sep: char): (r: seq<string>)
    ensures |r| >= 1
    ensures Join(r, [sep]) == s
    ensures forall i :: 0 <= i < |r| ==> sep !in r[i]
    decreases |s|
  {
    match IndexOfChar(s, sep)
    case None => [s]
    case Some(k) =>
      var rest := Split(s[k + 1..], sep);
      assert s == s[..k] + [sep] + s[k + 1..];
      assert sep !in s[..k] by {
        forall j | 0 <= j < k ensures s[..k][j] != sep { }
      }
      [s[..k]] + rest
  }

  /** `s.split(/\s+/)`: the pieces between maximal runs of white space.
      Replacing each run by one space and splitting on the space yields
      exactly these pieces. */
  function SplitSpaces(s: string): (r: seq<string>)
    ensures |r| >= 1
    ensures forall i :: 0 <= i < |r| ==> forall k :: 0 <= k < |r[i]| ==> !IsSpace(r[i][k])
    ensures Join(r, " ") == CollapseSpaces(s)
  {
    var c := CollapseSpaces(s);
    var r := Split(c, ' ');
    assert forall i :: 0 <= i < |r| ==> forall k :: 0 <= k < |r[i]| ==> !IsSpace(r[i][k]) by {
      forall i, k | 0 <= i < |r| && 0 <= k < |r[i]| ensures !IsSpace(r[i][k]) {
        JoinContains(r, " ", i, k);
        assert r[i][k] != ' ';
      }
    }
    r
  }

  /** Every piece occurs in the joined string. */
  lemma {:induction false} JoinOccurs(pieces: seq<string>, sep: string, i: nat)
    requires i < |pieces|
    ensures exists k :: OccursAt(Join(pieces, sep), pieces[i], k)
    decreases |pieces|
  {
    var j := Join(pieces, sep);
    if |pieces| == 1 {
      assert OccursAt(j, pieces[0], 0);
    } else if i == 0 {
      assert j[..|pieces[0]|] == pieces[0];
      assert OccursAt(j, pieces[0], 0);
    } else {
      JoinOccurs(pieces[1..], sep, i - 1);
      var rest := Join(pieces[1..], sep);
      var k :| OccursAt(rest, pieces[i], k);
      var off := |pieces[0]| + |sep|;
      assert j == pieces[0] + sep + rest;
      assert j[off + k..off + k + |pieces[i]|] == rest[k..k + |pieces[i]|];
      assert OccursAt(j, pieces[i], off + k);
    }
  }

  /** Every character of a piece is a character of the joined string. */
  lemma {:induction false} JoinContains(pieces: seq<string>, sep: string, i: nat, k: nat)
    requires i < |pieces| && k < |pieces[i]|
    ensures pieces[i][k] in Join(pieces, sep)
    decreases |pieces|
  {
    if |pieces| == 1 {
    } else if i == 0 {
      assert Join(pieces, sep)[k] == pieces[0][k];
    } else {
      JoinContains(pieces[1..], sep, i - 1, k);
      var rest := Join(pieces[1..], sep);
      var j :| 0 <= j < |rest| && rest[j] == pieces[i][k];
      assert Join(pieces, sep) == pieces[0] + sep + rest;
      assert Join(pieces, sep)[|pieces[0]| + |sep| + j] == rest[j];
    }
  }

  /** Splitting a non-empty collapsed, trimmed string on the space gives
      pieces that are all non-empty: the words of the string. */
  lemma {:induction false} SplitCollapsedWords(s: string)
    requires Collapsed(s) && |s| > 0 && s[0] != ' ' && s[|s| - 1] != ' '
    ensures forall i :: 0 <= i < |Split(s, ' ')| ==> |Split(s, ' ')[i]| > 0
    decreases |s|
  {
    match IndexOfChar(s, ' ')
    case None =>
    case Some(k) =>
      var rest := s[k + 1..];
      assert k > 0;
      assert k + 1 < |s|;
      assert rest[0] != ' ' by { assert s[k] == ' '; }
      forall i | 0 <= i < |rest| - 1 ensures !(rest[i] == ' ' && rest[i + 1] == ' ') {
        assert rest[i] == s[k + 1 + i];
      }
      forall i | 0 <= i < |rest| ensures IsSpace(rest[i]) ==> rest[i] == ' ' {
        assert rest[i] == s[k + 1 + i];
      }
      SplitCollapsedWords(rest);
  }

  // ---------------------------------------------------------------------------
  // Character mapping and filtering
  // ---------------------------------------------------------------------------

  /** `s.replace(/[.,;!?()"]/g, '')`. */
  function Strip(s: string): (r: string)
    ensures forall c :: c in r <==> c in s && !IsStripped(c)
    ensures forall i :: 0 <= i < |r| ==> !IsStripped(r[i])
    ensures (forall i :: 0 <= i < |s| ==> !IsStripped(s[i])) ==> r == s
    ensures |r| <= |s|
  {
    if |s| == 0 then []
    else (if IsStripped(s[0]) then [] else [s[0]]) + Strip(s[1..])
  }

  /** Every digit and every letter of the input survives stripping, in order:
      stripping distributes over concatenation. */
  lemma {:induction false} StripConcat(a: string, b: string)
    ensures Strip(a + b) == Strip(a) + Strip(b)
    decreases |a|
  {
    if |a| == 0 {
      assert a + b == b;
    } else {
      var c, t := a[0], a[1..];
      assert a == [c] + t;
      assert a + b == [c] + (t + b);
      StripCons(c, t);
      StripCons(c, t + b);
      StripConcat(t, b);
      var pre := if IsStripped(c) then [] else [c];
      Associative(pre, Strip(t), Strip(b));
    }
  }

  lemma Associative<T>(x: seq<T>, y: seq<T>, z: seq<T>)
    ensures x + (y + z) == (x + y) + z
  {
  }

  /** Stripping looks at one character at a time. */
  lemma StripCons(c: char, s: string)
    ensures Strip([c] + s) == (if IsStripped(c) then [] else [c]) + Strip(s)
  {
    assert ([c] + s)[1..] == s;
  }

  /** The first character survives stripping when it is not punctuation. */
  lemma StripKeepsHead(s: string)
    requires |s| > 0 && !IsStripped(s[0])
    ensures |Strip(s)| > 0 && Strip(s)[0] == s[0]
  {
  }

  /** A digit of the input is a digit of the stripped string. */
  lemma {:induction false} StripKeepsDigit(s: string, k: nat)
    requires k < |s| && IsDigit(s[k])
    ensures exists j :: 0 <= j < |Strip(s)| && IsDigit(Strip(s)[j])
    decreases |s|
  {
    var pre := if IsStripped(s[0]) then [] else [s[0]];
    var u := Strip(s[1..]);
    assert Strip(s) == pre + u;
    if k == 0 {
      assert !IsStripped(s[0]);
      DigitBehind([], [s[0]] + u, 0);
    } else {
      StripKeepsDigit(s[1..], k - 1);
      var j :| 0 <= j < |u| && IsDigit(u[j]);
      DigitBehind(pre, u, j);
    }
  }

  /** A digit of `u` is a digit of `pre + u`. */
  lemma DigitBehind(pre: string, u: string, j: nat)
    requires j < |u| && IsDigit(u[j])
    ensures exists i :: 0 <= i < |pre + u| && IsDigit((pre + u)[i])
  {
    assert (pre + u)[|pre| + j] == u[j];
  }

  /** ASCII `s.toLowerCase()`. */
  function Lower(s: string): (r: string)
    ensures |r| == |s|
    ensures forall i :: 0 <= i < |s| ==> r[i] == ToLower(s[i])
  {
    seq(|s|, i requires 0 <= i < |s| => ToLower(s[i]))
  }

  /** ASCII `s.toUpperCase()`. */
  function Upper(s: string): (r: string)
    ensures |r| == |s|
    ensures forall i :: 0 <= i < |s| ==> r[i] == ToUpper(s[i])
  {
    seq(|s|, i requires 0 <= i < |s| => ToUpper(s[i]))
  }

  // ---------------------------------------------------------------------------
  // Numbers
  // ---------------------------------------------------------------------------

  /** `/\d/.test(s)`: some character is a digit. */
  predicate HasDigit(s: string) {
    exists k :: 0 <= k < |s| && IsDigit(s[k])
  }

  predicate AllDigits(s: string) {
    forall i :: 0 <= i < |s| ==> IsDigit(s[i])
  }

  /** `parseInt(s, 10)` of a string of decimal digits. */
  function DigitsValue(s: string): nat
    requires AllDigits(s)
  {
    if |s| == 0 then 0 else 10 * DigitsValue(s[..|s| - 1]) + DigitValue(s[|s| - 1])
  }

  /** Two digit strings of the same length with the same value are equal. */
  lemma {:induction false} DigitsValueInjective(a: string, b: string)
    requires AllDigits(a) && AllDigits(b) && |a| == |b|
    requires DigitsValue(a) == DigitsValue(b)
    ensures a == b
    decreases |a|
  {
    if |a| > 0 {
      var n := |a| - 1;
      var da, db := DigitValue(a[n]), DigitValue(b[n]);
      var x, y := DigitsValue(a[..n]), DigitsValue(b[..n]);
      assert DigitsValue(a) == 10 * x + da;
      assert DigitsValue(b) == 10 * y + db;
      LastDigit(x, da, y, db);
      DigitsValueInjective(a[..n], b[..n]);
      assert a == a[..n] + [a[n]] && b == b[..n] + [b[n]];
    }
  }

  /** Equal numbers have equal last digits and equal leading parts. */
  lemma LastDigit(x: int, da: int, y: int, db: int)
    requires 0 <= da < 10 && 0 <= db < 10 && 10 * x + da == 10 * y + db
    ensures da == db && x == y
  {
  }

  /** The value of a digit string of length `n` is below 10^n. */
  lemma {:induction false} DigitsValueBound(s: string)
    requires AllDigits(s)
    ensures DigitsValue(s) < Pow10(|s|)
    decreases |s|
  {
    if |s| > 0 {
      DigitsValueBound(s[..|s| - 1]);
    }
  }

  function Pow10(n: nat): (r: nat)
    ensures r >= 1
  {
    if n == 0 then 1 else 10 * Pow10(n - 1)
  }

  /** `String(n)` for a natural number: decimal digits without a leading
      zero, whose value is `n`. */
  function NatToString(n: nat): (r: string)
    ensures |r| >= 1 && AllDigits(r)
    ensures |r| > 1 ==> r[0] != '0'
    ensures DigitsValue(r) == n
  {
    if n < 10 then
      var r := [DigitChar(n)];
      assert r[..0] == [];
      r
    else
      var p := NatToString(n / 10);
      var r := p + [DigitChar(n % 10)];
      assert r[..|r| - 1] == p;
      r
  }

  /** `String(i)` for an integer: a minus sign exactly when `i` is
      negative, then the decimal digits of its magnitude without a leading
      zero. */
  function IntToString(i: int): (r: string)
    ensures |r| >= 1 && (r[0] == '-' <==> i < 0)
    ensures i >= 0 ==> AllDigits(r) && DigitsValue(r) == i && (|r| > 1 ==> r[0] != '0')
    ensures i < 0 ==> |r| >= 2 && AllDigits(r[1..]) && DigitsValue(r[1..]) == -i && r[1] != '0'
  {
    if i >= 0 then NatToString(i)
    else
      var d := NatToString(-i);
      var r := "-" + d;
      assert r[1..] == d;
      r
  }

  /** `s.padStart(2, '0')`. */
  function PadTwo(s: string): (r: string)
    ensures |s| >= 2 ==> r == s
    ensures |s| < 2 ==> |r| == 2 && r[2 - |s|..] == s
    ensures forall i :: 0 <= i < 2 - |s| ==> r[i] == '0'
    decreases 2 - |s|
  {
    if |s| >= 2 then s else PadTwo("0" + s)
  }
}
