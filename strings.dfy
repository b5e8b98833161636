/** First-occurrence search and replacement on strings, as JavaScript's
    `String.prototype.replace` does with a string pattern, or with a regular
    expression without the `g` flag that matches one fixed text (such as
    `/datetime\(\?\)/`), and the placeholder arithmetic built on it. */
module Strings {
  import opened JsValues

  /** `pat` occurs in `s` starting at index `j`. */
  predicate MatchAt(s: string, pat: string, j: nat) {
    j + |pat| <= |s| && s[j..j + |pat|] == pat
  }

  /** `i` is the first index at which `pat` occurs in `s`. */
  predicate IsFirstMatch(s: string, pat: string, i: nat) {
    MatchAt(s, pat, i) && forall j: nat :: j < i ==> !MatchAt(s, pat, j)
  }

  function IndexOfFrom(s: string, pat: string, from: nat): (r: Option<nat>)
    requires forall j: nat :: j < from ==> !MatchAt(s, pat, j)
    ensures r.Some? ==> IsFirstMatch(s, pat, r.value)
    ensures r.None? ==> forall j: nat :: !MatchAt(s, pat, j)
    decreases |s| - from
  {
    if |s| < from + |pat| then None
    else if MatchAt(s, pat, from) then Some(from)
    else IndexOfFrom(s, pat, from + 1)
  }

  /** The index of the first occurrence of `pat` in `s`, if there is one. */
  function IndexOf(s: string, pat: string): (r: Option<nat>)
    ensures r.Some? ==> IsFirstMatch(s, pat, r.value)
    ensures r.None? ==> forall j: nat :: !MatchAt(s, pat, j)
  {
    IndexOfFrom(s, pat, 0)
  }

  lemma FirstMatchUnique(s: string, pat: string, i: nat, k: nat)
    requires IsFirstMatch(s, pat, i) && IsFirstMatch(s, pat, k)
    ensures i == k
  {
  }

  /** `s.replace(pat, rep)`: the first occurrence of `pat` becomes `rep`; with no
      occurrence the string is unchanged. `rep` is inserted literally. */
  function ReplaceFirst(s: string, pat: string, rep: string): (r: string)
    ensures (forall j: nat :: !MatchAt(s, pat, j)) ==> r == s
    ensures forall i: nat :: IsFirstMatch(s, pat, i) ==> r == s[..i] + rep + s[i + |pat|..]
  {
    match IndexOf(s, pat)
    case None => s
    case Some(i) =>
      assert forall k: nat :: IsFirstMatch(s, pat, k) ==> k == i by {
        forall k: nat | IsFirstMatch(s, pat, k) ensures k == i { FirstMatchUnique(s, pat, i, k); }
      }
      s[..i] + rep + s[i + |pat|..]
  }

  /** One `replace` per literal, in order, each on the text the previous one left:
      the shape of a `forEach` that reassigns the SQL string. */
  function ReplaceEach(s: string, pat: string, lits: seq<string>): string
    decreases |lits|
  {
    if lits == [] then s else ReplaceEach(ReplaceFirst(s, pat, lits[0]), pat, lits[1..])
  }

  /** `s` holds no `?`. */
  predicate MarkFree(s: string) {
    forall i :: 0 <= i < |s| ==> s[i] != '?'
  }

  /** `h` holds exactly one `?`, at index `k`: the placeholder patterns `?` and
      `datetime(?)` are of this kind. */
  predicate SingleMark(h: string, k: nat) {
    k < |h| && h[k] == '?' && forall i :: 0 <= i < |h| && i != k ==> h[i] != '?'
  }

  /** The template `segs[0] h segs[1] h ... h segs[n]`: the segments joined by a
      placeholder. */
  function Holes(segs: seq<string>, h: string): string
    requires |segs| >= 1
    decreases |segs|
  {
    if |segs| == 1 then segs[0] else segs[0] + h + Holes(segs[1..], h)
  }

  /** Reference meaning of placeholder filling: the `i`-th placeholder of the
      template receives `lits[i]`; placeholders beyond the literals stay, literals
      beyond the placeholders are dropped. Nothing inserted is searched again. */
  function Fill(segs: seq<string>, h: string, lits: seq<string>): string
    requires |segs| >= 1
    decreases |segs|
  {
    if |segs| == 1 then segs[0]
    else if lits == [] then Holes(segs, h)
    else segs[0] + lits[0] + Fill(segs[1..], h, lits[1..])
  }

  function CountMarks(s: string): (n: nat)
    ensures n <= |s|
    ensures n == 0 <==> MarkFree(s)
  {
    if s == [] then 0 else (if s[0] == '?' then 1 else 0) + CountMarks(s[1..])
  }

  /** The template text cut at every `?`. */
  function SplitMarks(s: string): (segs: seq<string>)
    ensures |segs| >= 1
    ensures forall i :: 0 <= i < |segs| ==> MarkFree(segs[i])
    ensures Holes(segs, "?") == s
    ensures |segs| == CountMarks(s) + 1
  {
    if s == [] then [""]
    else
      var rest := SplitMarks(s[1..]);
      if s[0] == '?' then
        assert s == "?" + s[1..];
        [""] + rest
      else
        var segs := [[s[0]] + rest[0]] + rest[1..];
        assert segs[1..] == rest[1..];
        assert Holes(segs, "?") == [s[0]] + Holes(rest, "?");
        assert s == [s[0]] + s[1..];
        segs
  }

  lemma ConcatAssoc(x: string, y: string, z: string)
    ensures x + (y + z) == x + y + z
  {
  }

  lemma CountMarksConcat(a: string, b: string)
    ensures CountMarks(a + b) == CountMarks(a) + CountMarks(b)
    decreases |a|
  {
    if a == [] {
      assert a + b == b;
    } else {
      assert (a + b)[1..] == a[1..] + b;
      CountMarksConcat(a[1..], b);
    }
  }

  lemma MarkFreeConcat(a: string, b: string)
    ensures MarkFree(a + b) <==> MarkFree(a) && MarkFree(b)
  {
    if MarkFree(a) && MarkFree(b) {
      forall i | 0 <= i < |a + b| ensures (a + b)[i] != '?' {
        if i >= |a| { assert (a + b)[i] == b[i - |a|]; }
      }
    }
    if MarkFree(a + b) {
      forall i | 0 <= i < |a| ensures a[i] != '?' { assert (a + b)[i] == a[i]; }
      forall i | 0 <= i < |b| ensures b[i] != '?' { assert (a + b)[|a| + i] == b[i]; }
    }
  }

  /** Every occurrence of a single-mark pattern puts a `?` into the text. */
  lemma MatchAtMark(s: string, h: string, k: nat, j: nat)
    requires SingleMark(h, k)
    ensures MatchAt(s, h, j) ==> j + k < |s| && s[j + k] == '?'
  {
    if MatchAt(s, h, j) {
      assert s[j..j + |h|][k] == s[j + k];
    }
  }

  /** A placeholder directly after `?`-free text is the first occurrence of the
      placeholder pattern. */
  lemma {:induction false} FirstHole(x: string, h: string, k: nat, y: string)
    requires MarkFree(x) && SingleMark(h, k)
    ensures IsFirstMatch(x + h + y, h, |x|)
  {
    var s := x + h + y;
    assert s[|x|..|x| + |h|] == h;
    forall j: nat | j < |x| ensures !MatchAt(s, h, j) {
      MatchAtMark(s, h, k, j);
      if j + k < |x| {
        assert s[j + k] == x[j + k];
      } else {
        assert s[j + k] == h[j + k - |x|];
      }
    }
  }

  /** Text without `?` holds no occurrence of a placeholder pattern, so any
      number of replacements leaves it as it is. */
  lemma {:induction false} ReplaceEachNoHole(s: string, h: string, k: nat, lits: seq<string>)
    requires MarkFree(s) && SingleMark(h, k)
    ensures forall j: nat :: !MatchAt(s, h, j)
    ensures ReplaceEach(s, h, lits) == s
    decreases |lits|
  {
    forall j: nat ensures !MatchAt(s, h, j) {
      MatchAtMark(s, h, k, j);
    }
    if lits != [] {
      ReplaceEachNoHole(s, h, k, lits[1..]);
    }
  }

  /** The main substitution theorem: when neither the template segments nor the
      literals contain `?`, repeated first-occurrence replacement fills the
      template's placeholders positionally, which is `Fill`. */
  lemma {:induction false} ReplaceEachFills(x: string, segs: seq<string>, h: string, k: nat, lits: seq<string>)
    requires SingleMark(h, k) && MarkFree(x) && |segs| >= 1
    requires forall i :: 0 <= i < |segs| ==> MarkFree(segs[i])
    requires forall i :: 0 <= i < |lits| ==> MarkFree(lits[i])
    ensures ReplaceEach(x + Holes(segs, h), h, lits) == x + Fill(segs, h, lits)
    decreases |segs|
  {
    if |segs| == 1 {
      MarkFreeConcat(x, segs[0]);
      ReplaceEachNoHole(x + segs[0], h, k, lits);
    } else if lits != [] {
      var x' := x + segs[0];
      var rest := Holes(segs[1..], h);
      MarkFreeConcat(x, segs[0]);
      assert x + Holes(segs, h) == x' + h + rest;
      FirstHole(x', h, k, rest);
      assert (x' + h + rest)[..|x'|] == x';
      assert (x' + h + rest)[|x'| + |h|..] == rest;
      assert ReplaceFirst(x' + h + rest, h, lits[0]) == (x' + lits[0]) + rest;
      MarkFreeConcat(x', lits[0]);
      ReplaceEachFills(x' + lits[0], segs[1..], h, k, lits[1..]);
    }
  }

  lemma ReplaceEachFillsTemplate(segs: seq<string>, h: string, k: nat, lits: seq<string>)
    requires SingleMark(h, k) && |segs| >= 1
    requires forall i :: 0 <= i < |segs| ==> MarkFree(segs[i])
    requires forall i :: 0 <= i < |lits| ==> MarkFree(lits[i])
    ensures ReplaceEach(Holes(segs, h), h, lits) == Fill(segs, h, lits)
  {
    ReplaceEachFills("", segs, h, k, lits);
    assert "" + Holes(segs, h) == Holes(segs, h);
    assert "" + Fill(segs, h, lits) == Fill(segs, h, lits);
  }

  lemma {:induction false} HolesMarks(segs: seq<string>)
    requires |segs| >= 1
    requires forall i :: 0 <= i < |segs| ==> MarkFree(segs[i])
    ensures CountMarks(Holes(segs, "?")) == |segs| - 1
    decreases |segs|
  {
    if |segs| > 1 {
      HolesMarks(segs[1..]);
      CountMarksConcat(segs[0] + "?", Holes(segs[1..], "?"));
      CountMarksConcat(segs[0], "?");
    }
  }

  /** Placeholders left after filling: none when there are at least as many
      literals as placeholders, otherwise exactly the surplus placeholders. */
  lemma {:induction false} FillLeavesMarks(segs: seq<string>, lits: seq<string>)
    requires |segs| >= 1
    requires forall i :: 0 <= i < |segs| ==> MarkFree(segs[i])
    requires forall i :: 0 <= i < |lits| ==> MarkFree(lits[i])
    ensures CountMarks(Fill(segs, "?", lits)) == if |lits| >= |segs| - 1 then 0 else |segs| - 1 - |lits|
    decreases |segs|
  {
    if |segs| == 1 {
    } else if lits == [] {
      HolesMarks(segs);
    } else {
      FillLeavesMarks(segs[1..], lits[1..]);
      CountMarksConcat(segs[0] + lits[0], Fill(segs[1..], "?", lits[1..]));
      CountMarksConcat(segs[0], lits[0]);
    }
  }

  /** Literals beyond the last placeholder have no effect. */
  lemma {:induction false} FillDropsExtra(segs: seq<string>, h: string, lits: seq<string>)
    requires |segs| >= 1 && |lits| >= |segs| - 1
    ensures Fill(segs, h, lits) == Fill(segs, h, lits[..|segs| - 1])
    decreases |segs|
  {
    if |segs| > 1 {
      assert lits[..|segs| - 1][1..] == lits[1..][..|segs| - 2];
      FillDropsExtra(segs[1..], h, lits[1..]);
    }
  }
}
