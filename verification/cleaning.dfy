/** The sentence clean-ups of utils/generator.ts: the `&nbsp;` entity
    becomes a space, runs of white space become one space, and the ends are
    trimmed. */
module Cleaning {
  import opened Chars
  import opened Text
  import opened StudyTypes

  const Nbsp: string := "&nbsp;"

  /** No `&nbsp;` entity occurs in `s`. */
  ghost predicate NoEntity(s: string) {
    forall k :: !OccursAt(s, Nbsp, k)
  }

  /** `e` is `s` with every `&nbsp;` entity turned into one space and
      nothing else changed: both are the same entity-free pieces, glued with
      the entity in `s` and with a space in `e`. */
  ghost predicate EntitiesAsSpaces(s: string, e: string) {
    exists pieces :: PiecesOf(s, Nbsp, " ", e, pieces)
  }

  /** `s.replace(/&nbsp;/g, ' ')`. */
  function ReplaceEntities(s: string): (r: string)
    ensures EntitiesAsSpaces(s, r)
    ensures NoEntity(r)
  {
    ReplaceAllLeavesNone(s, Nbsp, ' ');
    ReplaceAllPieces(s, Nbsp, " ");
    ReplaceAll(s, Nbsp, " ")
  }

  /** A slice of an entity-free string is entity-free. */
  lemma SliceNoEntity(s: string, i: nat, j: nat)
    requires i <= j <= |s| && NoEntity(s)
    ensures NoEntity(s[i..j])
  {
    var t := s[i..j];
    forall k ensures !OccursAt(t, Nbsp, k) {
      if 0 <= k && k + |Nbsp| <= |t| {
        var n := |Nbsp|;
        var a := t[k..k + n];
        var b := s[i + k..i + k + n];
        assert |a| == |b|;
        forall m | 0 <= m < n ensures a[m] == b[m] {
          assert a[m] == t[k + m] == s[i + k + m];
        }
        assert a == b;
        assert !OccursAt(s, Nbsp, i + k);
      }
    }
  }

  /** If collapsing white space yields a string starting with `q`, and `q`
      has no white space, then the input started with `q`. */
  lemma {:induction false} CollapsePrefix(t: string, q: string)
    requires forall i :: 0 <= i < |q| ==> !IsSpace(q[i])
    ensures |q| <= |CollapseSpaces(t)| && CollapseSpaces(t)[..|q|] == q ==> |q| <= |t| && t[..|q|] == q
    decreases |t|
  {
    if |q| == 0 {
      assert t[..0] == q;
    } else if |t| == 0 {
      assert CollapseSpaces(t) == [];
    } else if IsSpace(t[0]) {
      var r := CollapseSpaces(t);
      assert r[0] == ' ' && q[0] != ' ';
      assert |q| <= |r| ==> r[..|q|][0] != q[0];
    } else {
      CollapseWordHead(t);
      CollapsePrefix(t[1..], q[1..]);
      PrefixCons(t, q, CollapseSpaces(t[1..]), CollapseSpaces(t));
    }
  }

  /** One step of `CollapsePrefix`: a kept first character in front of a
      tail whose prefix property holds. */
  lemma PrefixCons(t: string, q: string, r': string, r: string)
    requires |t| > 0 && |q| > 0 && r == [t[0]] + r'
    requires |q[1..]| <= |r'| && r'[..|q[1..]|] == q[1..] ==> |q[1..]| <= |t[1..]| && t[1..][..|q[1..]|] == q[1..]
    ensures |q| <= |r| && r[..|q|] == q ==> |q| <= |t| && t[..|q|] == q
  {
    if |q| <= |r| && r[..|q|] == q {
      assert q[1..] == r'[..|q| - 1];
      assert t[..|q|] == [t[0]] + t[1..][..|q| - 1];
    }
  }

  /** Collapsing white space creates no `&nbsp;` entity. */
  lemma {:induction false} CollapseNoEntity(s: string)
    requires NoEntity(s)
    ensures NoEntity(CollapseSpaces(s))
    decreases |s|
  {
    var r := CollapseSpaces(s);
    if |s| == 0 {
    } else if IsSpace(s[0]) {
      var d := DropSpaces(s);
      SliceNoEntity(s, |s| - |d|, |s|);
      assert d == s[|s| - |d|..|s|];
      CollapseNoEntity(d);
      var r' := CollapseSpaces(d);
      assert r == [' '] + r';
      assert r[0] != Nbsp[0];
      ConsNoEntity(' ', r', r);
    } else {
      SliceNoEntity(s, 1, |s|);
      assert s[1..] == s[1..|s|];
      CollapseNoEntity(s[1..]);
      KeptHeadNoEntity(s);
    }
  }

  /** A kept first character in front of an entity-free collapsed tail
      gives an entity-free result. */
  lemma {:induction false} KeptHeadNoEntity(s: string)
    requires |s| > 0 && !IsSpace(s[0]) && NoEntity(s)
    requires NoEntity(CollapseSpaces(s[1..]))
    ensures NoEntity(CollapseSpaces(s))
  {
    var r := CollapseSpaces(s);
    var r' := CollapseSpaces(s[1..]);
    assert r == [s[0]] + r';
    CollapsePrefix(s[1..], Nbsp[1..]);
    assert !OccursAt(s, Nbsp, 0);
    HeadNoEntity(s, r', r);
    ConsNoEntity(s[0], r', r);
  }

  /** An entity-free tail behind a head that starts no entity. */
  lemma ConsNoEntity(c: char, t: string, r: string)
    requires r == [c] + t && NoEntity(t) && !OccursAt(r, Nbsp, 0)
    ensures NoEntity(r)
  {
    forall k ensures !OccursAt(r, Nbsp, k) {
      if k > 0 && k + |Nbsp| <= |r| {
        assert r[k..k + |Nbsp|] == t[k - 1..k - 1 + |Nbsp|];
        assert !OccursAt(t, Nbsp, k - 1);
      }
    }
  }

  /** A kept first character starts no entity after collapsing, since the
      input had none there and collapsing changes no white-space-free
      prefix. */
  lemma HeadNoEntity(s: string, r': string, r: string)
    requires |s| > 0 && !OccursAt(s, Nbsp, 0) && r == [s[0]] + r'
    requires var q := Nbsp[1..];
             |q| <= |r'| && r'[..|q|] == q ==> |q| <= |s[1..]| && s[1..][..|q|] == q
    ensures !OccursAt(r, Nbsp, 0)
  {
    var q := Nbsp[1..];
    if s[0] == '&' && |Nbsp| <= |r| {
      assert Nbsp == ['&'] + q;
      assert |Nbsp| > |s| || s[..|Nbsp|] == [s[0]] + s[1..][..|q|];
      assert r'[..|q|] != q;
      assert r[..|Nbsp|] == [r[0]] + r'[..|q|];
    }
  }

  /** The key-point clean-up, `s.replace(/&nbsp;/g, ' ').trim()`: the
      sentence with its entities turned into spaces, cut down to the slice
      between its first and last non-space characters. */
  function CleanKeyPoint(s: string): (r: string)
    ensures exists e :: EntitiesAsSpaces(s, e) && TrimOf(e, r)
    ensures NoEntity(r)
    ensures |r| > 0 ==> !IsSpace(r[0]) && !IsSpace(r[|r| - 1])
  {
    var e := ReplaceEntities(s);
    TrimNoEntity(e);
    var r := Trim(e);
    assert EntitiesAsSpaces(s, e) && TrimOf(e, r);
    r
  }

  /** Trimming an entity-free text cuts white space off its ends and
      leaves it entity-free. */
  lemma TrimNoEntity(e: string)
    requires NoEntity(e)
    ensures TrimOf(e, Trim(e)) && NoEntity(Trim(e))
  {
    var r := Trim(e);
    var i, j :| 0 <= i <= j <= |e| && r == e[i..j]
                && (forall k :: 0 <= k < i ==> IsSpace(e[k])) && (forall k :: j <= k < |e| ==> IsSpace(e[k]));
    SliceNoEntity(e, i, j);
  }

  /** The sentence clean-up of the timeline, flashcards and quiz,
      `s.replace(/&nbsp;/g, ' ').replace(/\s+/g, ' ').trim()`: the runs of
      non-white-space of the sentence with its entities turned into spaces,
      in order, joined by single spaces, with no entity left. */
  function CleanSentence(s: string): (r: string)
    ensures exists e :: && EntitiesAsSpaces(s, e) && r == Join(Runs(e), " ")
                        && Runs(r) == Runs(e) && NonSpace(r) == NonSpace(e)
    ensures NoEntity(r)
    ensures Collapsed(r)
    ensures |r| > 0 ==> r[0] != ' ' && r[|r| - 1] != ' '
  {
    var e := ReplaceEntities(s);
    var c := CollapseSpaces(e);
    CollapseNoEntity(e);
    var r := Trim(c);
    var i, j :| 0 <= i <= j <= |c| && r == c[i..j];
    SliceNoEntity(c, i, j);
    TrimCollapsed(c);
    CollapsedTrimRuns(e);
    assert EntitiesAsSpaces(s, e) && r == Join(Runs(e), " ") && Runs(r) == Runs(e) && NonSpace(r) == NonSpace(e);
    r
  }

  /** Collapsing and trimming leaves the runs of the text joined by single
      spaces. */
  lemma CollapsedTrimRuns(e: string)
    ensures var r := Trim(CollapseSpaces(e));
            Runs(r) == Runs(e) && r == Join(Runs(e), " ")
  {
    var c := CollapseSpaces(e);
    var r := Trim(c);
    CollapseKeepsRuns(e);
    RunsTrim(c);
    TrimCollapsed(c);
    CollapsedJoinsRuns(r);
  }

  /** `clean.replace(w, '________')` for a word known to occur: the mask
      stands where the first occurrence of `w` stood, and putting `w` back
      in its place gives the sentence again. */
  function Cloze(clean: string, w: string): (front: string)
    requires exists k :: OccursAt(clean, w, k)
    ensures exists k :: && OccursAt(front, Mask, k)
                        && (forall j :: 0 <= j < k ==> !OccursAt(clean, w, j))
                        && front[..k] + w + front[k + |Mask|..] == clean
  {
    var k := IndexOf(clean, w).value;
    var front := ReplaceFirst(clean, w, Mask);
    ReplaceFirstRestores(clean, w, Mask);
    assert front[k..k + |Mask|] == Mask;
    front
  }

  /** The words of a cleaned sentence, `cleanS.split(' ')`. A non-empty
      cleaned sentence has no empty word. */
  function Words(clean: string): (r: seq<string>)
    ensures |r| >= 1
    ensures Join(r, " ") == clean
    ensures forall i :: 0 <= i < |r| ==> ' ' !in r[i]
  {
    Split(clean, ' ')
  }

  lemma WordsNonEmpty(s: string)
    requires |CleanSentence(s)| > 0
    ensures forall i :: 0 <= i < |Words(CleanSentence(s))| ==> |Words(CleanSentence(s))[i]| > 0
  {
    SplitCollapsedWords(CleanSentence(s));
  }

  /** Each word occurs in the sentence it was split from. */
  lemma WordOccurs(clean: string, b: nat)
    requires b < |Words(clean)|
    ensures exists k :: OccursAt(clean, Words(clean)[b], k)
  {
    JoinOccurs(Words(clean), " ", b);
  }
}
