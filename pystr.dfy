/** The Python `str` operations the scraper and the text cleaner rely on:
    `split`, `join`, `strip`, `startswith`, `count`, `replace`, `str(int)`,
    `format(n, '0Nd')`, `int(digits)` and the whitespace `split()`.
    Character classes are restricted to ASCII. */
module PyStr {

  // ----------------------------------------------------------------------
  // Character classes
  // ----------------------------------------------------------------------

  /** `c.isspace()` on ASCII: tab, line feed, vertical tab, form feed,
      carriage return, the four information separators and the blank. */
  predicate IsSpace(c: char) { 9 <= c as int <= 13 || 28 <= c as int <= 32 }

  predicate NotSpace(c: char) { !IsSpace(c) }

  /** `c.isdigit()` on ASCII. */
  predicate IsDigit(c: char) { '0' <= c <= '9' }

  /** `c.isalpha()` on ASCII. */
  predicate IsAlpha(c: char) { 'a' <= c <= 'z' || 'A' <= c <= 'Z' }

  /** Membership in the regular-expression class `\w` on ASCII. */
  predicate IsWordChar(c: char) { IsAlpha(c) || IsDigit(c) || c == '_' }

  /** Every character of `s` satisfies `p`. */
  predicate All(s: string, p: char -> bool) { forall i :: 0 <= i < |s| ==> p(s[i]) }

  predicate AllSpace(s: string) { forall i :: 0 <= i < |s| ==> IsSpace(s[i]) }

  /** `c.lower()` on ASCII. */
  function LowerChar(c: char): char
  {
    if 'A' <= c <= 'Z' then (c as int + 32) as char else c
  }

  // ----------------------------------------------------------------------
  // Character-wise map and filter
  // ----------------------------------------------------------------------

  function MapChars(s: string, f: char -> char): (r: string)
    ensures |r| == |s|
    ensures forall i :: 0 <= i < |s| ==> r[i] == f(s[i])
  {
    if s == [] then [] else [f(s[0])] + MapChars(s[1..], f)
  }

  /** The characters of `s` that satisfy `p`, in their original order. */
  function Keep(s: string, p: char -> bool): (r: string)
    ensures |r| <= |s|
    ensures All(r, p)
  {
    if s == [] then []
    else if p(s[0]) then [s[0]] + Keep(s[1..], p)
    else Keep(s[1..], p)
  }

  lemma {:induction false} KeepAppend(a: string, b: string, p: char -> bool)
    ensures Keep(a + b, p) == Keep(a, p) + Keep(b, p)
  {
    if a != [] {
      assert (a + b)[0] == a[0];
      assert (a + b)[1..] == a[1..] + b;
      KeepAppend(a[1..], b, p);
    } else {
      assert a + b == b;
    }
  }

  lemma {:induction false} KeepAll(s: string, p: char -> bool)
    requires All(s, p)
    ensures Keep(s, p) == s
  {
    if s != [] {
      KeepAll(s[1..], p);
    }
  }

  lemma {:induction false} KeepNone(s: string, p: char -> bool)
    requires forall i :: 0 <= i < |s| ==> !p(s[i])
    ensures Keep(s, p) == []
  {
    if s != [] {
      KeepNone(s[1..], p);
    }
  }

  /** `Keep` drops exactly the characters that fail `p`: a character occurs in
      the result as often as it occurs in the input when it satisfies `p`, and
      not at all otherwise. */
  lemma {:induction false} KeepCounts(s: string, p: char -> bool, c: char)
    ensures multiset(Keep(s, p))[c] == if p(c) then multiset(s)[c] else 0
  {
    if s != [] {
      KeepCounts(s[1..], p, c);
      assert s == [s[0]] + s[1..];
    }
  }

  // ----------------------------------------------------------------------
  // split(sep) and sep.join(parts)
  // ----------------------------------------------------------------------

  /** `s.split(sep)` for a one-character separator: the pieces between
      separators, empty pieces included. */
  function Split(s: string, sep: char): (parts: seq<string>)
    ensures |parts| == multiset(s)[sep] + 1
    ensures forall k :: 0 <= k < |parts| ==> sep !in parts[k]
  {
    if s == [] then [""]
    else
      var rest := Split(s[1..], sep);
      assert s == [s[0]] + s[1..];
      if s[0] == sep then [""] + rest
      else [[s[0]] + rest[0]] + rest[1..]
  }

  /** `sep.join(parts)`. */
  function Join(parts: seq<string>, sep: string): string
  {
    if |parts| == 0 then ""
    else if |parts| == 1 then parts[0]
    else parts[0] + sep + Join(parts[1..], sep)
  }

  lemma JoinCons(w: string, ws: seq<string>, sep: string)
    requires |ws| > 0
    ensures Join([w] + ws, sep) == w + sep + Join(ws, sep)
  {
    assert ([w] + ws)[1..] == ws;
  }

  /** Joining a list that ends in a joined list is joining the two lists. */
  lemma {:induction false} JoinFlatten(xs: seq<string>, ys: seq<string>, sep: string)
    requires |xs| > 0 && |ys| > 0
    ensures Join(xs + [Join(ys, sep)], sep) == Join(xs + ys, sep)
  {
    var j := Join(ys, sep);
    if |xs| == 1 {
      assert xs + [j] == [xs[0]] + [j];
      assert xs + ys == [xs[0]] + ys;
      JoinCons(xs[0], [j], sep);
      JoinCons(xs[0], ys, sep);
    } else {
      JoinFlatten(xs[1..], ys, sep);
      assert xs + [j] == [xs[0]] + (xs[1..] + [j]);
      assert xs + ys == [xs[0]] + (xs[1..] + ys);
      JoinCons(xs[0], xs[1..] + [j], sep);
      JoinCons(xs[0], xs[1..] + ys, sep);
    }
  }

  lemma JoinConsHead(c: char, parts: seq<string>, sep: string)
    requires |parts| > 0
    ensures Join([[c] + parts[0]] + parts[1..], sep) == [c] + Join(parts, sep)
  {
    var q := [[c] + parts[0]] + parts[1..];
    if |parts| > 1 {
      assert q[1..] == parts[1..];
    }
  }

  /** Joining the pieces of a split with the separator gives back the text. */
  lemma {:induction false} JoinSplit(s: string, sep: char)
    ensures Join(Split(s, sep), [sep]) == s
  {
    if s != [] {
      JoinSplit(s[1..], sep);
      var rest := Split(s[1..], sep);
      if s[0] == sep {
        assert ([""] + rest)[1..] == rest;
      } else {
        JoinConsHead(s[0], rest, [sep]);
      }
    }
  }

  lemma {:induction false} SplitPrefix(w: string, t: string, sep: char)
    requires sep !in w
    ensures Split(w + t, sep) == [w + Split(t, sep)[0]] + Split(t, sep)[1..]
  {
    if w != [] {
      assert (w + t)[0] == w[0];
      assert (w + t)[1..] == w[1..] + t;
      assert w[0] in w;
      SplitPrefix(w[1..], t, sep);
      assert [w[0]] + (w[1..] + Split(t, sep)[0]) == w + Split(t, sep)[0];
    } else {
      assert w + t == t;
      var q := Split(t, sep);
      assert q == [q[0]] + q[1..];
      assert w + q[0] == q[0];
    }
  }

  /** Splitting a join whose pieces are separator-free gives back the pieces. */
  lemma {:induction false} SplitJoin(parts: seq<string>, sep: char)
    requires |parts| > 0
    requires forall k :: 0 <= k < |parts| ==> sep !in parts[k]
    ensures Split(Join(parts, [sep]), sep) == parts
  {
    if |parts| == 1 {
      SplitPrefix(parts[0], "", sep);
      assert parts[0] + "" == parts[0];
    } else {
      var t := [sep] + Join(parts[1..], [sep]);
      assert Join(parts, [sep]) == parts[0] + t;
      SplitPrefix(parts[0], t, sep);
      assert t[1..] == Join(parts[1..], [sep]);
      SplitJoin(parts[1..], sep);
      assert Split(t, sep) == [""] + parts[1..];
      assert parts[0] + "" == parts[0];
      assert [parts[0]] + parts[1..] == parts;
    }
  }

  // ----------------------------------------------------------------------
  // strip()
  // ----------------------------------------------------------------------

  /** Neither end of `s` is whitespace. */
  predicate IsTrimmed(s: string) { s == [] || (!IsSpace(s[0]) && !IsSpace(s[|s| - 1])) }

  function StripLeft(s: string): (r: string)
    ensures r == [] || !IsSpace(r[0])
    ensures |r| <= |s| && r == s[|s| - |r|..]
  {
    if s != [] && IsSpace(s[0]) then StripLeft(s[1..]) else s
  }

  function StripRight(s: string): (r: string)
    ensures r == [] || !IsSpace(r[|r| - 1])
    ensures |r| <= |s| && r == s[..|r|]
  {
    if s != [] && IsSpace(s[|s| - 1]) then StripRight(s[..|s| - 1]) else s
  }

  /** `s.strip()`. */
  function Strip(s: string): (r: string)
    ensures IsTrimmed(r) && |r| <= |s|
  {
    var l := StripLeft(s);
    var r := StripRight(l);
    assert r != [] ==> r[0] == l[0];
    r
  }

  /** `[x.strip() for x in ps]`. */
  function StripAll(ps: seq<string>): (r: seq<string>)
    ensures |r| == |ps|
    ensures forall k :: 0 <= k < |ps| ==> r[k] == Strip(ps[k])
  {
    seq(|ps|, k requires 0 <= k < |ps| => Strip(ps[k]))
  }

  lemma {:induction false} StripLeftPadded(pad: string, t: string)
    requires AllSpace(pad)
    requires t == [] || !IsSpace(t[0])
    ensures StripLeft(pad + t) == t
  {
    if pad != [] {
      assert (pad + t)[1..] == pad[1..] + t;
      StripLeftPadded(pad[1..], t);
    } else {
      assert pad + t == t;
    }
  }

  lemma {:induction false} StripRightPadded(t: string, pad: string)
    requires AllSpace(pad)
    requires t == [] || !IsSpace(t[|t| - 1])
    ensures StripRight(t + pad) == t
  {
    if pad != [] {
      var s := t + pad;
      assert s[..|s| - 1] == t + pad[..|pad| - 1];
      StripRightPadded(t, pad[..|pad| - 1]);
    } else {
      assert t + pad == t;
    }
  }

  /** Stripping removes exactly the surrounding whitespace: a trimmed core
      padded with whitespace on both sides strips back to the core. */
  lemma StripPadded(left: string, core: string, right: string)
    requires AllSpace(left) && AllSpace(right) && IsTrimmed(core)
    ensures Strip(left + core + right) == core
  {
    if core == [] {
      assert left + core + right == (left + right) + [];
      StripLeftPadded(left + right, []);
    } else {
      assert left + core + right == left + (core + right);
      StripLeftPadded(left, core + right);
      StripRightPadded(core, right);
    }
  }

  lemma StripTrimmed(s: string)
    requires IsTrimmed(s)
    ensures Strip(s) == s
  {
    StripPadded([], s, []);
    assert [] + s + [] == s;
  }

  // ----------------------------------------------------------------------
  // Maximal runs: split() and re.findall(r'[\w]+', s)
  // ----------------------------------------------------------------------

  /** The maximal runs of characters satisfying `p`, in order. With
      `NotSpace` this is `s.split()`; with `IsWordChar` it is
      `re.findall(r'[\w]+', s)`. */
  function Tokens(s: string, p: char -> bool): (r: seq<string>)
    ensures forall k :: 0 <= k < |r| ==> r[k] != [] && All(r[k], p)
    ensures s != [] && p(s[0]) ==> r != [] && r[0][0] == s[0]
  {
    if s == [] then []
    else
      var rest := Tokens(s[1..], p);
      if !p(s[0]) then rest
      else if |s| > 1 && p(s[1]) then [[s[0]] + rest[0]] + rest[1..]
      else [[s[0]]] + rest
  }

  /** `s.split()` with no argument. */
  function Words(s: string): seq<string>
  {
    Tokens(s, NotSpace)
  }

  /** Number of maximal `p`-runs, scanning left to right; `inRun` says whether
      the character before `s` belonged to a run. */
  function RunCount(s: string, p: char -> bool, inRun: bool): nat
  {
    if s == [] then 0
    else if !p(s[0]) then RunCount(s[1..], p, false)
    else (if inRun then 0 else 1) + RunCount(s[1..], p, true)
  }

  lemma RunCountFlag(s: string, p: char -> bool)
    ensures RunCount(s, p, false) == RunCount(s, p, true) + (if s != [] && p(s[0]) then 1 else 0)
  {
  }

  lemma {:induction false} TokensCount(s: string, p: char -> bool)
    ensures |Tokens(s, p)| == RunCount(s, p, false)
  {
    if s != [] {
      TokensCount(s[1..], p);
      RunCountFlag(s[1..], p);
    }
  }

  /** Deleting characters that belong to runs never creates a run. */
  lemma {:induction false} RunCountKeep(s: string, p: char -> bool, keep: char -> bool, inRun: bool)
    requires forall c :: !keep(c) ==> p(c)
    ensures RunCount(Keep(s, keep), p, inRun) <= RunCount(s, p, inRun)
  {
    if s != [] {
      RunCountKeep(s[1..], p, keep, inRun);
      RunCountKeep(s[1..], p, keep, true);
      RunCountKeep(s[1..], p, keep, false);
      RunCountFlag(s[1..], p);
    }
  }

  /** A character map that keeps run membership keeps the run count. */
  lemma {:induction false} RunCountMap(s: string, p: char -> bool, f: char -> char, inRun: bool)
    requires forall c :: p(f(c)) == p(c)
    ensures RunCount(MapChars(s, f), p, inRun) == RunCount(s, p, inRun)
  {
    if s != [] {
      var m := MapChars(s, f);
      assert m[1..] == MapChars(s[1..], f);
      RunCountMap(s[1..], p, f, false);
      RunCountMap(s[1..], p, f, true);
    }
  }

  lemma {:induction false} TokensRun(w: string, t: string, p: char -> bool)
    requires w != [] && All(w, p)
    requires t == [] || !p(t[0])
    ensures Tokens(w + t, p) == [w] + Tokens(t, p)
  {
    var s := w + t;
    assert s[0] == w[0];
    assert s[1..] == w[1..] + t;
    if |w| == 1 {
      assert s[1..] == t;
      assert w == [w[0]];
    } else {
      TokensRun(w[1..], t, p);
      assert s[1] == w[1];
      assert [w[0]] + w[1..] == w;
    }
  }

  /** Re-tokenising a join of runs with a separator outside the runs gives
      back the runs. */
  lemma {:induction false} TokensJoin(ws: seq<string>, p: char -> bool, sep: char)
    requires !p(sep)
    requires forall k :: 0 <= k < |ws| ==> ws[k] != [] && All(ws[k], p)
    ensures Tokens(Join(ws, [sep]), p) == ws
  {
    if |ws| == 1 {
      TokensRun(ws[0], [], p);
      assert ws[0] + [] == ws[0];
    } else if |ws| > 1 {
      var j := Join(ws[1..], [sep]);
      assert Join(ws, [sep]) == ws[0] + ([sep] + j);
      TokensRun(ws[0], [sep] + j, p);
      assert ([sep] + j)[1..] == j;
      TokensJoin(ws[1..], p, sep);
      assert [ws[0]] + ws[1..] == ws;
    }
  }

  // ----------------------------------------------------------------------
  // Decimal numbers
  // ----------------------------------------------------------------------

  function DigitChar(d: nat): (c: char)
    requires d < 10
    ensures IsDigit(c)
  {
    ('0' as int + d) as char
  }

  /** `str(n)` for a natural number. */
  function NatToString(n: nat): (s: string)
    ensures s != [] && All(s, IsDigit)
  {
    if n < 10 then [DigitChar(n)] else NatToString(n / 10) + [DigitChar(n % 10)]
  }

  /** `str(n)` for any integer. */
  function IntToString(n: int): string
  {
    if n < 0 then "-" + NatToString(-n) else NatToString(n)
  }

  /** `int(s)` for a string of ASCII digits (the empty string reads as 0). */
  function DecimalValue(s: string): nat
    requires All(s, IsDigit)
  {
    if s == [] then 0 else DecimalValue(s[..|s| - 1]) * 10 + (s[|s| - 1] as int - '0' as int)
  }

  lemma {:induction false} DecimalOfNatToString(n: nat)
    ensures DecimalValue(NatToString(n)) == n
  {
    if n >= 10 {
      var s := NatToString(n);
      assert s[..|s| - 1] == NatToString(n / 10);
      DecimalOfNatToString(n / 10);
    }
  }

  function Zeros(k: nat): (z: string)
    ensures |z| == k && All(z, IsDigit)
  {
    if k == 0 then [] else "0" + Zeros(k - 1)
  }

  /** Left-pad a digit string with zeros to at least `width` characters. */
  function ZeroPad(s: string, width: nat): (r: string)
    ensures |r| == if |s| >= width then |s| else width
  {
    if |s| >= width then s else Zeros(width - |s|) + s
  }

  /** `format(n, '0<width>d')`: the sign first, then zeros up to `width`
      characters in all. */
  function FormatInt(n: int, width: nat): string
  {
    if n < 0 then "-" + ZeroPad(NatToString(-n), if width > 0 then width - 1 else 0)
    else ZeroPad(NatToString(n), width)
  }

  lemma {:induction false} DecimalLeadingZeros(k: nat, s: string)
    requires All(s, IsDigit)
    ensures All(Zeros(k) + s, IsDigit)
    ensures DecimalValue(Zeros(k) + s) == DecimalValue(s)
  {
    var z := Zeros(k) + s;
    if s == [] {
      assert z == Zeros(k);
      if k > 0 {
        assert z[..|z| - 1] == Zeros(k - 1) + [] by {
          assert Zeros(k) == Zeros(k - 1) + "0" by { ZerosSnoc(k); }
        }
        DecimalLeadingZeros(k - 1, []);
      }
    } else {
      assert z[..|z| - 1] == Zeros(k) + s[..|s| - 1];
      DecimalLeadingZeros(k, s[..|s| - 1]);
    }
  }

  lemma {:induction false} ZerosSnoc(k: nat)
    requires k > 0
    ensures Zeros(k) == Zeros(k - 1) + "0"
  {
    if k > 1 {
      ZerosSnoc(k - 1);
    }
  }

  /** A zero-padded non-negative number reads back as itself. */
  lemma FormatIntValue(n: nat, width: nat)
    ensures All(FormatInt(n, width), IsDigit)
    ensures DecimalValue(FormatInt(n, width)) == n
  {
    var s := NatToString(n);
    DecimalOfNatToString(n);
    if |s| < width {
      DecimalLeadingZeros(width - |s|, s);
    }
  }

  // ----------------------------------------------------------------------
  // replace(pat, rep)
  // ----------------------------------------------------------------------

  /** `pat` occurs in `s` at position `i`. */
  predicate OccursAt(s: string, pat: string, i: int)
  {
    0 <= i && i + |pat| <= |s| && s[i..i + |pat|] == pat
  }

  /** `s.replace(pat, rep)`: a left-to-right scan replacing non-overlapping
      occurrences. */
  function Replace(s: string, pat: string, rep: string): string
    requires pat != []
    decreases |s|
  {
    if pat <= s then rep + Replace(s[|pat|..], pat, rep)
    else if s == [] then []
    else [s[0]] + Replace(s[1..], pat, rep)
  }

  /** Text in which `pat` does not occur is left unchanged. */
  lemma {:induction false} ReplaceAbsent(s: string, pat: string, rep: string)
    requires pat != []
    requires forall i :: !OccursAt(s, pat, i)
    ensures Replace(s, pat, rep) == s
  {
    if s != [] {
      assert !OccursAt(s, pat, 0);
      assert !(pat <= s);
      forall i ensures !OccursAt(s[1..], pat, i) {
        assert !OccursAt(s, pat, i + 1);
        if 0 <= i && i + |pat| <= |s| - 1 {
          assert s[1..][i..i + |pat|] == s[i + 1..i + 1 + |pat|];
        }
      }
      ReplaceAbsent(s[1..], pat, rep);
    }
  }

  lemma {:induction false} ReplaceFreePrefix(w: string, t: string, pat: string, rep: string)
    requires pat != []
    requires pat[0] !in w
    ensures Replace(w + t, pat, rep) == w + Replace(t, pat, rep)
  {
    if w != [] {
      var s := w + t;
      assert s[0] == w[0] && s[0] != pat[0];
      assert !(pat <= s);
      assert s[1..] == w[1..] + t;
      ReplaceFreePrefix(w[1..], t, pat, rep);
    } else {
      assert w + t == t;
    }
  }

  /** No proper suffix of `pat` is also a prefix of it, so two occurrences
      of `pat` can never overlap. */
  predicate Unbordered(pat: string)
  {
    forall d :: 0 < d < |pat| ==> pat[d..] != pat[..|pat| - d]
  }

  /** No occurrence of `pat` starts in text free of `pat` that is followed
      by an occurrence of `pat`. */
  lemma NoOccurrenceAtStart(w: string, t: string, pat: string)
    requires pat != [] && Unbordered(pat) && w != []
    requires forall i :: !OccursAt(w, pat, i)
    requires pat <= t
    ensures !(pat <= w + t)
  {
    var s := w + t;
    if |w| >= |pat| {
      assert w[0..|pat|] == s[..|pat|];
      assert !OccursAt(w, pat, 0);
    } else {
      // an occurrence at 0 would make `pat` a border of itself
      var d := |w|;
      assert pat[d..] != pat[..|pat| - d];
      assert s[d..|pat|] == t[..|pat| - d] == pat[..|pat| - d];
    }
  }

  /** Text free of `pat` stays free of it without its first character. */
  lemma FreeTail(w: string, pat: string)
    requires w != []
    requires forall i :: !OccursAt(w, pat, i)
    ensures forall i :: !OccursAt(w[1..], pat, i)
  {
    forall i ensures !OccursAt(w[1..], pat, i) {
      assert !OccursAt(w, pat, i + 1);
      if 0 <= i && i + |pat| <= |w| - 1 {
        assert w[1..][i..i + |pat|] == w[i + 1..i + 1 + |pat|];
      }
    }
  }

  /** Text free of `pat` followed by an occurrence of `pat`: the scan passes
      over the free text unchanged, since no occurrence can start inside it. */
  lemma {:induction false} ReplaceFreeBefore(w: string, t: string, pat: string, rep: string)
    requires pat != [] && Unbordered(pat)
    requires forall i :: !OccursAt(w, pat, i)
    requires pat <= t
    ensures Replace(w + t, pat, rep) == w + Replace(t, pat, rep)
  {
    var s := w + t;
    if w == [] {
      assert s == t;
    } else {
      NoOccurrenceAtStart(w, t, pat);
      assert Replace(s, pat, rep) == [w[0]] + Replace(s[1..], pat, rep);
      assert s[1..] == w[1..] + t;
      FreeTail(w, pat);
      ReplaceFreeBefore(w[1..], t, pat, rep);
      assert w == [w[0]] + w[1..];
    }
  }

  /** Pieces in which `pat` does not occur, joined by `pat`: every joining
      occurrence, and nothing else, is replaced:
      `pat.join(ws).replace(pat, rep) == rep.join(ws)`. */
  lemma {:induction false} ReplaceJoin(ws: seq<string>, pat: string, rep: string)
    requires pat != [] && Unbordered(pat)
    requires forall k, i :: 0 <= k < |ws| ==> !OccursAt(ws[k], pat, i)
    ensures Replace(Join(ws, pat), pat, rep) == Join(ws, rep)
  {
    if |ws| > 0 {
      var w := ws[0];
      assert forall i :: !OccursAt(w, pat, i);
      if |ws| == 1 {
        ReplaceAbsent(w, pat, rep);
      } else {
        var rest := ws[1..];
        var j := Join(rest, pat);
        assert Join(ws, pat) == w + (pat + j);
        assert pat <= pat + j;
        ReplaceFreeBefore(w, pat + j, pat, rep);
        assert (pat + j)[|pat|..] == j;
        assert Replace(pat + j, pat, rep) == rep + Replace(j, pat, rep);
        forall k, i | 0 <= k < |rest|
          ensures !OccursAt(rest[k], pat, i)
        {
          assert rest[k] == ws[k + 1];
        }
        ReplaceJoin(rest, pat, rep);
        assert Join(ws, rep) == w + (rep + Join(rest, rep));
      }
    }
  }
}
