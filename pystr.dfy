/** Models of the Python `str` operations that the skill's title
    normalisation chains together: `lower()`, `strip()`, `replace(p, "")`,
    `split(" ")` and `" ".join(...)`, with the facts about them that the
    normalisation needs. */
module PyStr {

  /** `c.isspace()` in Python: the characters that `str.strip()` removes. */
  predicate IsSpace(c: char) {
    c == ' ' || ('\t' <= c <= '\r') || ('\U{1c}' <= c <= '\U{1f}')
    || c == '\U{85}' || c == '\U{a0}' || c == '\U{1680}'
    || ('\U{2000}' <= c <= '\U{200a}') || c == '\U{2028}' || c == '\U{2029}'
    || c == '\U{202f}' || c == '\U{205f}' || c == '\U{3000}'
  }

  predicate IsUpper(c: char) {
    'A' <= c <= 'Z'
  }

  /** An ASCII capital becomes the small letter at the same place in the
      alphabet; every other character is kept. */
  function LowerChar(c: char): (d: char)
    ensures IsUpper(c) ==> 'a' <= d <= 'z' && d as int - 'a' as int == c as int - 'A' as int
    ensures !IsUpper(c) ==> d == c
    ensures !IsUpper(d)
  {
    if IsUpper(c) then (c as int + 32) as char else c
  }

  /** `s.lower()`, restricted to the ASCII letters. */
  function Lower(s: string): (r: string)
    ensures |r| == |s|
    ensures forall c :: c in r ==> !IsUpper(c)
    ensures forall i :: 0 <= i < |s| && !IsUpper(s[i]) ==> r[i] == s[i]
    ensures forall i :: 0 <= i < |s| ==> r[i] == LowerChar(s[i])
  {
    seq(|s|, i requires 0 <= i < |s| => LowerChar(s[i]))
  }

  /** `s.lstrip()`: drops the leading whitespace, and only that. */
  function LStrip(s: string): (r: string)
    ensures |r| <= |s|
    ensures r == [] || !IsSpace(r[0])
    ensures forall i :: 0 <= i < |s| - |r| ==> IsSpace(s[i])
  {
    if |s| > 0 && IsSpace(s[0]) then LStrip(s[1..]) else s
  }

  /** `s.rstrip()`: drops the trailing whitespace, and only that. */
  function RStrip(s: string): (r: string)
    ensures |r| <= |s|
    ensures r == [] || !IsSpace(r[|r| - 1])
    ensures forall i :: |r| <= i < |s| ==> IsSpace(s[i])
  {
    if |s| > 0 && IsSpace(s[|s| - 1]) then RStrip(s[..|s| - 1]) else s
  }

  /** `s.strip()`. */
  function Strip(s: string): (r: string)
    ensures r == [] || (!IsSpace(r[0]) && !IsSpace(r[|r| - 1]))
  {
    RStripPrefix(LStrip(s));
    RStrip(LStrip(s))
  }

  /** `s.replace(p, "")` for a non-empty pattern `p`: Python scans from the
      left and deletes non-overlapping occurrences. */
  function Remove(s: string, p: string): (r: string)
    requires p != []
    ensures |r| <= |s|
    decreases |s|
  {
    if |s| < |p| then s
    else if s[..|p|] == p then Remove(s[|p|..], p)
    else [s[0]] + Remove(s[1..], p)
  }

  /** The position of the first `' '` in `s`, or `|s|` when there is none. */
  function FirstSpace(s: string): (i: nat)
    ensures i <= |s|
    ensures i < |s| ==> s[i] == ' '
    ensures forall j :: 0 <= j < i ==> s[j] != ' '
  {
    if s == [] || s[0] == ' ' then 0 else 1 + FirstSpace(s[1..])
  }

  /** `s.split(" ")`: cuts at every single space, so two adjacent spaces or a
      space at either end give an empty word; there is always one word. */
  function Split(s: string): (ws: seq<string>)
    ensures |ws| >= 1
    ensures forall w :: w in ws ==> ' ' !in w
    decreases |s|
  {
    var i := FirstSpace(s);
    if i == |s| then [s] else [s[..i]] + Split(s[i + 1..])
  }

  /** `[w for w in ws if w]`. */
  function NonEmpty(ws: seq<string>): (r: seq<string>)
    ensures forall w :: w in r <==> w in ws && w != []
  {
    if ws == [] then []
    else (if ws[0] == [] then [] else [ws[0]]) + NonEmpty(ws[1..])
  }

  /** `" ".join(ws)`. */
  function Join(ws: seq<string>): string {
    if |ws| == 0 then []
    else if |ws| == 1 then ws[0]
    else ws[0] + " " + Join(ws[1..])
  }

  /** `" ".join([w for w in s.split(" ") if w])`: the source's idiom for
      collapsing runs of spaces. */
  function Collapse(s: string): string {
    Join(NonEmpty(Split(s)))
  }

  /** `p` occurs in `s` starting at position `i`. */
  predicate OccursAt(s: string, p: string, i: nat) {
    i + |p| <= |s| && s[i..i + |p|] == p
  }

  /** `p` occurs nowhere in `s`. */
  predicate Free(s: string, p: string) {
    forall i: nat :: i <= |s| ==> !OccursAt(s, p, i)
  }

  // ---------------------------------------------------------------------
  // Lower and Strip

  lemma LowerNoop(s: string)
    requires forall c :: c in s ==> !IsUpper(c)
    ensures Lower(s) == s
  {
    assert forall i :: 0 <= i < |s| ==> s[i] in s;
  }

  /** What `lstrip` keeps is a suffix of its input. */
  lemma {:induction false} LStripSuffix(s: string)
    ensures LStrip(s) == s[|s| - |LStrip(s)|..]
    decreases |s|
  {
    if |s| > 0 && IsSpace(s[0]) {
      LStripSuffix(s[1..]);
    }
  }

  /** What `rstrip` keeps is a prefix of its input. */
  lemma {:induction false} RStripPrefix(s: string)
    ensures RStrip(s) == s[..|RStrip(s)|]
    decreases |s|
  {
    if |s| > 0 && IsSpace(s[|s| - 1]) {
      RStripPrefix(s[..|s| - 1]);
    }
  }

  lemma StripChars(s: string)
    ensures forall c :: c in Strip(s) ==> c in s
  {
    var l := LStrip(s);
    LStripSuffix(s);
    RStripPrefix(l);
    assert forall c :: c in l ==> c in s;
  }

  lemma StripNoop(s: string)
    requires s == [] || (!IsSpace(s[0]) && !IsSpace(s[|s| - 1]))
    ensures Strip(s) == s
  {
  }

  // ---------------------------------------------------------------------
  // Free: absence of a pattern

  lemma FreeChar(s: string, c: char)
    requires c !in s
    ensures Free(s, [c])
  {
    forall i: nat ensures !OccursAt(s, [c], i) {
      if i + 1 <= |s| {
        assert s[i] in s;
        assert s[i..i + 1] == [s[i]];
      }
    }
  }

  lemma FreeSlice(s: string, p: string, a: nat, b: nat)
    requires a <= b <= |s|
    requires Free(s, p)
    ensures Free(s[a..b], p)
  {
    forall i: nat ensures !OccursAt(s[a..b], p, i) {
      if i + |p| <= b - a {
        var u, v := s[a..b][i..i + |p|], s[a + i..a + i + |p|];
        forall k | 0 <= k < |p| ensures u[k] == v[k] { }
        assert u == v;
        assert !OccursAt(s, p, a + i);
      }
    }
  }

  lemma FreeStrip(s: string, p: string)
    requires Free(s, p)
    ensures Free(Strip(s), p)
  {
    var l := LStrip(s);
    LStripSuffix(s);
    RStripPrefix(l);
    FreeSlice(s, p, |s| - |l|, |s|);
    assert s[|s| - |l|..|s|] == l;
    FreeSlice(l, p, 0, |RStrip(l)|);
  }

  // ---------------------------------------------------------------------
  // Remove

  /** Deleting a pattern that does not occur changes nothing. */
  lemma {:induction false} RemoveNoop(s: string, p: string)
    requires p != [] && Free(s, p)
    ensures Remove(s, p) == s
    decreases |s|
  {
    if |s| >= |p| {
      assert !OccursAt(s, p, 0);
      FreeSlice(s, p, 1, |s|);
      assert s[1..|s|] == s[1..];
      RemoveNoop(s[1..], p);
    }
  }

  /** Deleting only ever removes characters. */
  lemma {:induction false} RemoveChars(s: string, p: string)
    requires p != []
    ensures forall c :: c in Remove(s, p) ==> c in s
    decreases |s|
  {
    if |s| >= |p| {
      if s[..|p|] == p {
        RemoveChars(s[|p|..], p);
        assert forall c :: c in s[|p|..] ==> c in s;
      } else {
        RemoveChars(s[1..], p);
        assert forall c :: c in s[1..] ==> c in s;
      }
    }
  }

  /** Deleting a one-character pattern leaves no such character. */
  lemma {:induction false} RemoveChar(s: string, c: char)
    ensures c !in Remove(s, [c])
    decreases |s|
  {
    if |s| >= 1 {
      if s[..1] == [c] {
        RemoveChar(s[1..], c);
      } else {
        assert s[0] != c;
        RemoveChar(s[1..], c);
      }
    }
  }

  /** The scan keeps everything before the first occurrence of `p`, deletes
      that occurrence and carries on after it. `a + p[..|p| - 1]` being free
      of `p` says the occurrence after `a` is the first one. */
  lemma {:induction false} RemoveFirst(a: string, p: string, b: string)
    requires p != [] && Free(a + p[..|p| - 1], p)
    ensures Remove(a + p + b, p) == a + Remove(b, p)
    decreases |a|
  {
    var s := a + p + b;
    if a == [] {
      assert s == p + b && s[..|p|] == p && s[|p|..] == b;
      RemoveAt(s, p);
    } else {
      FreeBeforeFirst(a, p);
      assert s[..|p|] == (a + p)[..|p|];
      RemoveSkip(s, p);
      RemoveFirst(a[1..], p, b);
      assert s[1..] == a[1..] + p + b;
      assert a == [a[0]] + a[1..];
    }
  }

  /** If nothing before the end of `a + p` holds `p`, then `a + p` does not
      begin with `p` (for a non-empty `a`), and the same holds of `a[1..]`. */
  lemma FreeBeforeFirst(a: string, p: string)
    requires p != [] && a != [] && Free(a + p[..|p| - 1], p)
    ensures (a + p)[..|p|] != p
    ensures Free(a[1..] + p[..|p| - 1], p)
  {
    var q := a + p[..|p| - 1];
    assert !OccursAt(q, p, 0);
    assert (a + p)[..|p|] == q[..|p|];
    FreeSlice(q, p, 1, |q|);
    assert q[1..|q|] == a[1..] + p[..|p| - 1];
  }

  /** An occurrence at the front is deleted and the scan goes on after it. */
  lemma RemoveAt(s: string, p: string)
    requires p != [] && |p| <= |s| && s[..|p|] == p
    ensures Remove(s, p) == Remove(s[|p|..], p)
  {
  }

  /** A front without an occurrence keeps its first character. */
  lemma RemoveSkip(s: string, p: string)
    requires p != [] && |p| <= |s| && s[..|p|] != p
    ensures Remove(s, p) == [s[0]] + Remove(s[1..], p)
  {
  }

  /** Deleting a one-character pattern from a one-character text keeps the
      character unless it is the pattern. */
  lemma RemoveSingle(x: char, c: char)
    ensures Remove([x], [c]) == if x == c then [] else [x]
  {
    assert [x][..1] == [x] && [x][1..] == [];
  }

  /** Deleting a one-character pattern works piece by piece: what is kept of
      `a + b` is what is kept of `a` followed by what is kept of `b`, so
      every other character survives, in order. */
  lemma {:induction false} RemoveAppend(a: string, b: string, c: char)
    ensures Remove(a + b, [c]) == Remove(a, [c]) + Remove(b, [c])
    decreases |a|
  {
    if a == [] {
      assert a + b == b;
    } else {
      var s := a + b;
      assert s[..1] == a[..1] && s[1..] == a[1..] + b;
      RemoveAppend(a[1..], b, c);
      if a[..1] == [c] {
        assert Remove(s, [c]) == Remove(a[1..] + b, [c]);
      } else {
        assert s[0] == a[0];
        assert Remove(s, [c]) == [a[0]] + Remove(a[1..] + b, [c]);
      }
    }
  }

  /** When `s` does not begin with the pattern's first character, deletion
      keeps that first character in front. */
  lemma RemoveHead(s: string, p: string)
    requires p != [] && s != [] && s[0] != p[0]
    ensures Remove(s, p) == [s[0]] + Remove(s[1..], p)
  {
    if |s| < |p| {
      assert Remove(s[1..], p) == s[1..];
      assert s == [s[0]] + s[1..];
    } else {
      assert s[..|p|][0] == s[0];
    }
  }

  /** After the first step of `Remove` keeps `s[0]`, the result does not start
      with three copies of `c`: Python's left-to-right scan would have
      matched there. */
  lemma RemoveTripleHead(s: string, c: char)
    requires |s| >= 3 && s[..3] != [c, c, c]
    ensures !OccursAt([s[0]] + Remove(s[1..], [c, c, c]), [c, c, c], 0)
  {
    var p := [c, c, c];
    var t := s[1..];
    var r := [s[0]] + Remove(t, p);
    if |r| >= 3 {
      if s[0] != c {
        assert r[..3][0] != p[0];
      } else if s[1] != c {
        RemoveHead(t, p);
        assert r[1] == t[0];
        assert r[..3][1] != p[1];
      } else {
        assert s[2] != c && t[1] == s[2];
        if |t| < 3 {
          assert Remove(t, p) == t;
        } else {
          assert t[..3][1] != p[1];
          RemoveHead(t[1..], p);
          assert Remove(t, p) == [t[0]] + ([t[1]] + Remove(t[2..], p));
        }
        assert r[2] == t[1];
        assert r[..3][2] != p[2];
      }
    }
  }

  /** Deleting a pattern made of three equal characters leaves no occurrence
      of it: Python's scan never creates a new match at a seam. */
  lemma {:induction false} RemoveTripleFree(s: string, c: char)
    ensures Free(Remove(s, [c, c, c]), [c, c, c])
    decreases |s|
  {
    var p := [c, c, c];
    if |s| < 3 {
      assert Remove(s, p) == s;
      forall i: nat ensures !OccursAt(s, p, i) { }
    } else if s[..3] == p {
      RemoveTripleFree(s[3..], c);
    } else {
      var rest := Remove(s[1..], p);
      var r := [s[0]] + rest;
      RemoveTripleFree(s[1..], c);
      RemoveTripleHead(s, c);
      forall i: nat ensures !OccursAt(r, p, i) {
        if 1 <= i && i + 3 <= |r| {
          assert r[i..i + 3] == rest[i - 1..i + 2];
          assert !OccursAt(rest, p, i - 1);
        }
      }
    }
  }

  // ---------------------------------------------------------------------
  // Split and Join

  lemma {:induction false} FirstSpaceOfSpaceless(s: string)
    requires ' ' !in s
    ensures FirstSpace(s) == |s|
    decreases |s|
  {
    if s != [] {
      assert s[0] in s;
      assert forall c :: c in s[1..] ==> c in s;
      FirstSpaceOfSpaceless(s[1..]);
    }
  }

  /** A space at `k` with none before it is the first space. */
  lemma {:induction false} FirstSpaceAt(s: string, k: nat)
    requires k < |s| && s[k] == ' ' && ' ' !in s[..k]
    ensures FirstSpace(s) == k
    decreases k
  {
    if k > 0 {
      assert s[0] == s[..k][0];
      assert s[1..][..k - 1] == s[1..k];
      assert forall c :: c in s[1..k] ==> c in s[..k];
      FirstSpaceAt(s[1..], k - 1);
    }
  }

  /** Every word of a split is made of characters of the text. */
  lemma {:induction false} SplitChars(s: string)
    ensures forall w, c :: w in Split(s) && c in w ==> c in s
    decreases |s|
  {
    var i := FirstSpace(s);
    if i < |s| {
      SplitChars(s[i + 1..]);
      assert forall c :: c in s[..i] ==> c in s;
      assert forall c :: c in s[i + 1..] ==> c in s;
    }
  }

  lemma JoinCons(w: string, ws: seq<string>)
    requires ws != []
    ensures Join([w] + ws) == w + " " + Join(ws)
  {
    assert ([w] + ws)[1..] == ws;
  }

  /** `" ".join(s.split(" ")) == s`. */
  lemma {:induction false} JoinSplit(s: string)
    ensures Join(Split(s)) == s
    decreases |s|
  {
    var i := FirstSpace(s);
    if i < |s| {
      var t := s[i + 1..];
      JoinSplit(t);
      JoinCons(s[..i], Split(t));
      assert s[i] == ' ';
      assert s == s[..i] + " " + t;
    }
  }

  /** `" ".join(ws).split(" ") == ws` when no word holds a space. */
  lemma {:induction false} SplitJoin(ws: seq<string>)
    requires ws != []
    requires forall w :: w in ws ==> ' ' !in w
    ensures Split(Join(ws)) == ws
    decreases |ws|
  {
    var w := ws[0];
    assert w in ws;
    if |ws| == 1 {
      FirstSpaceOfSpaceless(w);
    } else {
      var j := Join(ws[1..]);
      var r := w + " " + j;
      assert forall v :: v in ws[1..] ==> v in ws;
      SplitJoin(ws[1..]);
      assert r[..|w|] == w;
      FirstSpaceAt(r, |w|);
      var i := FirstSpace(r);
      assert r[i + 1..] == j;
      assert ws == [w] + ws[1..];
    }
  }

  lemma {:induction false} JoinFirst(ws: seq<string>)
    requires ws != [] && ws[0] != []
    ensures Join(ws) != [] && Join(ws)[0] == ws[0][0]
  {
  }

  lemma {:induction false} JoinLast(ws: seq<string>)
    requires ws != [] && ws[|ws| - 1] != []
    ensures Join(ws) != []
    ensures Join(ws)[|Join(ws)| - 1] == ws[|ws| - 1][|ws[|ws| - 1]| - 1]
    decreases |ws|
  {
    if |ws| > 1 {
      JoinLast(ws[1..]);
    }
  }

  /** Every character of a join is a space or a character of some word. */
  lemma {:induction false} JoinChars(ws: seq<string>, s: string)
    requires forall w, c :: w in ws && c in w ==> c in s
    ensures forall c :: c in Join(ws) ==> c == ' ' || c in s
    decreases |ws|
  {
    if |ws| > 1 {
      assert ws[0] in ws;
      assert forall v :: v in ws[1..] ==> v in ws;
      JoinChars(ws[1..], s);
    } else if |ws| == 1 {
      assert ws[0] in ws;
    }
  }

  /** A pattern without a space that occurs in no word does not occur in
      their join. */
  lemma {:induction false} FreeJoin(ws: seq<string>, p: string)
    requires p != [] && ' ' !in p
    requires forall w :: w in ws ==> Free(w, p)
    ensures Free(Join(ws), p)
    decreases |ws|
  {
    if |ws| == 0 {
      forall i: nat ensures !OccursAt([], p, i) { }
    } else if |ws| == 1 {
      assert ws[0] in ws;
    } else {
      var w := ws[0];
      var j := Join(ws[1..]);
      var r := w + " " + j;
      assert w in ws;
      assert forall v :: v in ws[1..] ==> v in ws;
      FreeJoin(ws[1..], p);
      forall i: nat ensures !OccursAt(r, p, i) {
        if i + |p| <= |r| {
          if i + |p| <= |w| {
            assert r[i..i + |p|] == w[i..i + |p|];
            assert !OccursAt(w, p, i);
          } else if i <= |w| {
            assert r[i..i + |p|][|w| - i] == ' ';
            assert p[|w| - i] in p;
          } else {
            assert r[i..i + |p|] == j[i - |w| - 1..i - |w| - 1 + |p|];
            assert !OccursAt(j, p, i - |w| - 1);
          }
        }
      }
    }
  }

  /** Joining non-empty words without spaces never puts two spaces side by
      side. */
  lemma {:induction false} JoinNoDoubleSpace(ws: seq<string>)
    requires forall w :: w in ws ==> w != [] && ' ' !in w
    ensures Free(Join(ws), "  ")
    decreases |ws|
  {
    if |ws| == 0 {
      forall i: nat ensures !OccursAt([], "  ", i) { }
    } else if |ws| == 1 {
      var w := ws[0];
      assert w in ws;
      forall i: nat ensures !OccursAt(w, "  ", i) {
        if i + 2 <= |w| {
          assert w[i] in w;
          assert w[i..i + 2][0] == w[i];
        }
      }
    } else {
      var w := ws[0];
      var j := Join(ws[1..]);
      var r := w + " " + j;
      assert w in ws && ws[1] in ws;
      assert forall v :: v in ws[1..] ==> v in ws;
      JoinNoDoubleSpace(ws[1..]);
      JoinFirst(ws[1..]);
      assert ws[1][0] in ws[1];
      forall i: nat ensures !OccursAt(r, "  ", i) {
        if i + 2 <= |r| {
          if i < |w| {
            assert w[i] in w;
            assert r[i..i + 2][0] == w[i];
          } else if i == |w| {
            assert j[0] != ' ';
            assert r[i + 1] == j[0];
            assert r[i..i + 2][1] == r[i + 1];
          } else {
            assert r[i..i + 2] == j[i - |w| - 1..i - |w| + 1];
            assert !OccursAt(j, "  ", i - |w| - 1);
          }
        }
      }
    }
  }

  lemma {:induction false} FreeSplit(s: string, p: string)
    requires Free(s, p)
    ensures forall w :: w in Split(s) ==> Free(w, p)
    decreases |s|
  {
    var i := FirstSpace(s);
    if i < |s| {
      FreeSlice(s, p, 0, i);
      FreeSlice(s, p, i + 1, |s|);
      assert s[i + 1..|s|] == s[i + 1..];
      FreeSplit(s[i + 1..], p);
    }
  }

  lemma {:induction false} SplitLast(s: string)
    requires s != [] && s[|s| - 1] != ' '
    ensures var ws := Split(s); ws[|ws| - 1] != []
    ensures var ws := Split(s); var w := ws[|ws| - 1]; w[|w| - 1] == s[|s| - 1]
    decreases |s|
  {
    var i := FirstSpace(s);
    if i < |s| {
      var t := s[i + 1..];
      assert i < |s| - 1 && t[|t| - 1] == s[|s| - 1];
      SplitLast(t);
      var vs := Split(t);
      assert Split(s) == [s[..i]] + vs;
      assert Split(s)[|Split(s)| - 1] == vs[|vs| - 1];
    } else {
      assert Split(s) == [s];
    }
  }

  lemma {:induction false} NonEmptyLast(ws: seq<string>)
    requires ws != [] && ws[|ws| - 1] != []
    ensures NonEmpty(ws) != [] && NonEmpty(ws)[|NonEmpty(ws)| - 1] == ws[|ws| - 1]
    decreases |ws|
  {
    if |ws| > 1 {
      NonEmptyLast(ws[1..]);
    }
  }

  /** The filter keeps a single word exactly when it is non-empty. */
  lemma NonEmptySingle(w: string)
    ensures NonEmpty([w]) == if w == [] then [] else [w]
  {
    assert [w][1..] == [];
  }

  /** The filter works piece by piece, so it keeps the order and the
      repetitions of the words it keeps. */
  lemma {:induction false} NonEmptyAppend(a: seq<string>, b: seq<string>)
    ensures NonEmpty(a + b) == NonEmpty(a) + NonEmpty(b)
    decreases |a|
  {
    if a == [] {
      assert a + b == b;
    } else {
      assert (a + b)[0] == a[0] && (a + b)[1..] == a[1..] + b;
      NonEmptyAppend(a[1..], b);
    }
  }

  lemma {:induction false} NonEmptyNoop(ws: seq<string>)
    requires forall w :: w in ws ==> w != []
    ensures NonEmpty(ws) == ws
    decreases |ws|
  {
    if ws != [] {
      assert ws[0] in ws;
      assert forall v :: v in ws[1..] ==> v in ws;
      NonEmptyNoop(ws[1..]);
      assert ws == [ws[0]] + ws[1..];
    }
  }

  // ---------------------------------------------------------------------
  // Collapse

  /** Collapsing keeps no other character than those of `s` and the space. */
  lemma CollapseChars(s: string)
    ensures forall c :: c in Collapse(s) ==> c == ' ' || c in s
  {
    SplitChars(s);
    JoinChars(NonEmpty(Split(s)), s);
  }

  /** A pattern without a space that is absent from `s` stays absent. */
  lemma CollapseFree(s: string, p: string)
    requires p != [] && ' ' !in p && Free(s, p)
    ensures Free(Collapse(s), p)
  {
    FreeSplit(s, p);
    FreeJoin(NonEmpty(Split(s)), p);
  }

  /** The words of the collapsed text are the non-empty words of `s`, in the
      same order, so none of them is empty. */
  lemma CollapseWords(s: string)
    requires NonEmpty(Split(s)) != []
    ensures Split(Collapse(s)) == NonEmpty(Split(s))
  {
    SplitJoin(NonEmpty(Split(s)));
  }

  /** The collapsed text never holds two adjacent spaces. */
  lemma CollapseNoDoubleSpace(s: string)
    ensures Free(Collapse(s), "  ")
  {
    JoinNoDoubleSpace(NonEmpty(Split(s)));
  }

  /** A text without whitespace at either end keeps its two end characters. */
  lemma CollapseEnds(s: string)
    requires s != [] && s[0] != ' ' && s[|s| - 1] != ' '
    ensures var r := Collapse(s); r != [] && r[0] == s[0] && r[|r| - 1] == s[|s| - 1]
  {
    var ws := Split(s);
    var i := FirstSpace(s);
    assert i > 0;
    assert ws[0] == s[..i];
    assert NonEmpty(ws)[0] == ws[0];
    JoinFirst(NonEmpty(ws));
    SplitLast(s);
    NonEmptyLast(ws);
    JoinLast(NonEmpty(ws));
  }

  /** Collapsing twice is collapsing once. */
  lemma CollapseIdempotent(s: string)
    ensures Collapse(Collapse(s)) == Collapse(s)
  {
    var ws := NonEmpty(Split(s));
    if ws == [] {
      assert Split([]) == [[]];
    } else {
      SplitJoin(ws);
      NonEmptyNoop(ws);
    }
  }
}
