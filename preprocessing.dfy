/** `EquationSolver.preprocess`: sign normalisation of one side of an
    equation before it is evaluated.  Spaces go, a `0` is put in front of a
    leading sign and inside the pairs `(+`, `(-`, `+-`, `--`, and a `-` that
    follows an operator is recoded as the negation marker `~`. */
module Preprocessing {

  /** Java's `String.startsWith`, character by character. */
  predicate StartsWith(s: string, pat: string)
    decreases |pat|
  {
    pat == [] || (s != [] && s[0] == pat[0] && StartsWith(s[1..], pat[1..]))
  }

  lemma {:induction false} StartsWithIsPrefix(s: string, pat: string)
    ensures StartsWith(s, pat) <==> |pat| <= |s| && s[..|pat|] == pat
    decreases |pat|
  {
    if pat != [] && s != [] {
      StartsWithIsPrefix(s[1..], pat[1..]);
      if |pat| <= |s| && s[..|pat|] == pat {
        assert s[1..][..|pat| - 1] == pat[1..];
      }
      if |pat| <= |s| && s[0] == pat[0] && s[1..][..|pat| - 1] == pat[1..] {
        assert s[..|pat|] == [s[0]] + s[1..][..|pat| - 1];
      }
    }
  }

  /** Java's `String.replace(pat, rep)`: the occurrences of `pat` found
      scanning left to right, without overlap, are replaced by `rep`. */
  function ReplaceAll(s: string, pat: string, rep: string): string
    requires pat != []
    decreases |s|
  {
    if |s| < |pat| then s
    else if StartsWith(s, pat) then rep + ReplaceAll(s[|pat|..], pat, rep)
    else [s[0]] + ReplaceAll(s[1..], pat, rep)
  }

  /** `s` with every `c` taken out. */
  function Drop(c: char, s: string): (r: string)
    ensures c !in r
    ensures |r| <= |s|
    decreases |s|
  {
    if s == [] then [] else (if s[0] == c then [] else [s[0]]) + Drop(c, s[1..])
  }

  /** No `u` in `s` is directly followed by `v`. */
  predicate NoPair(s: string, u: char, v: char) {
    forall i :: 0 <= i < |s| - 1 ==> !(s[i] == u && s[i + 1] == v)
  }

  // The characters after which a `-` is a negation: plus, minus, times, divide, open parenthesis.
  predicate IsNegationContext(c: char) {
    c == '+' || c == '-' || c == '*' || c == '/' || c == '('
  }

  /** The character the negation pass leaves at a position holding `c`, when
      the position before it holds `prev`. */
  function NegationStep(prev: char, c: char): char {
    if c == '-' && IsNegationContext(prev) then '~' else c
  }

  /** Spaces removed, a leading sign given a `0` in front, and a `0` put
      between the two signs of `(+`, `(-` and `+-`: every rewrite but the
      last.  A `--` left alone reaches the negation pass, which reads its
      second sign as a negation, so `a--b` means `a - (-b)`. */
  function InsertZeros(s: string): string {
    var e := ReplaceAll(s, " ", "");
    if e == [] then e
    else
      var e1 := if e[0] == '+' then "0" + e else e;
      var e2 := if e1[0] == '-' then "0" + e1 else e1;
      ReplaceAll(ReplaceAll(ReplaceAll(e2, "(+", "(0+"), "(-", "(0-"), "+-", "+0-")
  }

  /** The normalisation as the source writes it: a last rewrite of `--` to
      `-0-` turns `a--b` into `a-0-b`, which is `a - b`. */
  function Normalize(s: string): string {
    ReplaceAll(InsertZeros(s), "--", "-0-")
  }

  /** The negation pass of `preprocess` as a function: scanning from the
      second character on, a `-` becomes `~` when the character before it,
      as already rewritten, is one of `+ - * / (`.  Nothing else changes. */
  function MarkNegation(s: string): (r: string)
    ensures |r| == |s|
    ensures |s| > 0 ==> r[0] == s[0]
    ensures forall i :: 1 <= i < |s| ==>
              r[i] == NegationStep(r[i - 1], s[i])
    decreases |s|
  {
    if |s| <= 1 then s
    else
      var p := MarkNegation(s[..|s| - 1]);
      var c := s[|s| - 1];
      assert forall i :: 0 <= i < |s| - 1 ==> s[..|s| - 1][i] == s[i];
      var r := p + [NegationStep(p[|p| - 1], c)];
      MarkNegationExtend(s, p, r);
      r
  }

  lemma MarkNegationExtend(s: string, p: string, r: string)
    requires |s| > 1 && |p| == |s| - 1 && p[0] == s[0]
    requires forall i :: 1 <= i < |p| ==>
               p[i] == NegationStep(p[i - 1], s[i])
    requires r == p + [NegationStep(p[|p| - 1], s[|s| - 1])]
    ensures forall i :: 1 <= i < |s| ==>
              r[i] == NegationStep(r[i - 1], s[i])
  {
    forall i | 1 <= i < |s|
      ensures r[i] == NegationStep(r[i - 1], s[i])
    {
      if i < |p| {
        assert r[i] == p[i] && r[i - 1] == p[i - 1];
      }
    }
  }

  /** One more step of the negation pass. */
  lemma MarkNegationSnoc(s: string, i: nat)
    requires 1 <= i < |s|
    ensures MarkNegation(s[..i + 1]) == MarkNegation(s[..i])
              + [NegationStep(MarkNegation(s[..i])[i - 1], s[i])]
  {
    assert s[..i + 1][..i] == s[..i];
  }

  /** What `preprocess` would return without its `--` rewrite. */
  function PreprocessedIntended(s: string): string {
    MarkNegation(InsertZeros(s))
  }

  /** What `preprocess` returns. */
  function Preprocessed(s: string): string {
    MarkNegation(Normalize(s))
  }

  // ------------------------------------------------------------ the source's loop

  /** The negation loop of `preprocess`, rewriting the character array in
      place. */
  method MarkNegationInPlace(carr: array<char>)
    modifies carr
    ensures carr[..] == MarkNegation(old(carr[..]))
  {
    ghost var s := carr[..];
    var i := 1;
    while i < carr.Length
      invariant 1 <= i
      invariant carr.Length > 0 ==> i <= carr.Length && carr[..i] == MarkNegation(s[..i])
      invariant forall k :: i <= k < carr.Length ==> carr[k] == s[k]
    {
      MarkNegationSnoc(s, i);
      assert carr[i - 1] == carr[..i][i - 1];
      if carr[i] == '-' && IsNegationContext(carr[i - 1]) {
        carr[i] := '~';
      }
      assert carr[..i + 1] == carr[..i] + [carr[i]];
      i := i + 1;
    }
    assert carr.Length > 0 ==> s[..carr.Length] == s && carr[..carr.Length] == carr[..];
  }

  /** `preprocess`. */
  method Preprocess(expr: string) returns (r: string)
    ensures r == Preprocessed(expr)
  {
    var e := ReplaceAll(expr, " ", "");
    if |e| == 0 {
      return e;
    }
    if e[0] == '+' {
      e := "0" + e;
    }
    if e[0] == '-' {
      e := "0" + e;
    }
    e := ReplaceAll(e, "(+", "(0+");
    e := ReplaceAll(e, "(-", "(0-");
    e := ReplaceAll(e, "+-", "+0-");
    e := ReplaceAll(e, "--", "-0-");
    assert e == Normalize(expr);
    var carr := new char[|e|](k requires 0 <= k < |e| => e[k]);
    assert carr[..] == e;
    MarkNegationInPlace(carr);
    r := carr[..];
  }

  // ------------------------------------------------------------ ReplaceAll facts

  lemma {:induction false} DropConcat(c: char, u: string, v: string)
    ensures Drop(c, u + v) == Drop(c, u) + Drop(c, v)
    decreases |u|
  {
    if u != [] {
      assert (u + v)[0] == u[0] && (u + v)[1..] == u[1..] + v;
      DropConcat(c, u[1..], v);
      var h := if u[0] == c then [] else [u[0]];
      assert Drop(c, u + v) == h + Drop(c, u[1..] + v);
      assert h + (Drop(c, u[1..]) + Drop(c, v)) == (h + Drop(c, u[1..])) + Drop(c, v);
    } else {
      assert u + v == v;
    }
  }

  /** Replacing `pat` by a text that differs from it only in its `c`s leaves
      the text without `c`s unchanged. */
  lemma {:induction false} ReplaceAllDrop(s: string, pat: string, rep: string, c: char)
    requires pat != [] && Drop(c, rep) == Drop(c, pat)
    ensures Drop(c, ReplaceAll(s, pat, rep)) == Drop(c, s)
    decreases |s|
  {
    StartsWithIsPrefix(s, pat);
    if |s| < |pat| {
    } else if s[..|pat|] == pat {
      ReplaceAllDrop(s[|pat|..], pat, rep, c);
      DropConcat(c, rep, ReplaceAll(s[|pat|..], pat, rep));
      assert s == pat + s[|pat|..];
      DropConcat(c, pat, s[|pat|..]);
    } else {
      ReplaceAllDrop(s[1..], pat, rep, c);
      DropConcat(c, [s[0]], ReplaceAll(s[1..], pat, rep));
      assert s == [s[0]] + s[1..];
      DropConcat(c, [s[0]], s[1..]);
    }
  }

  /** Replacing every single `c` by nothing is dropping the `c`s. */
  lemma {:induction false} ReplaceCharByNothing(s: string, c: char)
    ensures ReplaceAll(s, [c], "") == Drop(c, s)
    decreases |s|
  {
    if s != [] {
      ReplaceCharByNothing(s[1..], c);
      StartsWithIsPrefix(s, [c]);
      assert s[..1] == [s[0]];
    }
  }

  /** `ReplaceAll` brings in no character that neither `s` nor `rep` has. */
  lemma {:induction false} ReplaceAllKeepsAbsent(s: string, pat: string, rep: string, c: char)
    requires pat != [] && c !in s && c !in rep
    ensures c !in ReplaceAll(s, pat, rep)
    decreases |s|
  {
    StartsWithIsPrefix(s, pat);
    if |s| < |pat| {
    } else if s[..|pat|] == pat {
      assert forall k :: |pat| <= k < |s| ==> s[k] == s[|pat|..][k - |pat|];
      ReplaceAllKeepsAbsent(s[|pat|..], pat, rep, c);
    } else {
      assert forall k :: 1 <= k < |s| ==> s[k] == s[1..][k - 1];
      ReplaceAllKeepsAbsent(s[1..], pat, rep, c);
    }
  }

  /** A replacement that starts like its pattern keeps the first character. */
  lemma ReplaceAllHead(s: string, pat: string, rep: string)
    requires pat != [] && rep != [] && rep[0] == pat[0] && s != []
    ensures ReplaceAll(s, pat, rep) != [] && ReplaceAll(s, pat, rep)[0] == s[0]
  {
  }

  /** Putting a `0` between `c` and `d` wherever they stand together creates
      no pair of non-`0` characters, and leaves no `c` directly before `d`
      unless `c` and `d` are the same sign (`---` keeps a `--`). */
  lemma {:induction false} InsertZeroPairs(s: string, c: char, d: char, u: char, v: char)
    requires c != '0' && d != '0' && u != '0' && v != '0'
    requires NoPair(s, u, v) || (u == c && v == d && c != d)
    ensures NoPair(ReplaceAll(s, [c, d], [c, '0', d]), u, v)
    decreases |s|
  {
    var pat, rep := [c, d], [c, '0', d];
    var r := ReplaceAll(s, pat, rep);
    StartsWithIsPrefix(s, pat);
    if |s| < 2 {
    } else if s[..2] == pat {
      var rest := s[2..];
      assert NoPair(s, u, v) ==> NoPair(rest, u, v) by {
        if NoPair(s, u, v) {
          forall i | 0 <= i < |rest| - 1 ensures !(rest[i] == u && rest[i + 1] == v) {
            assert rest[i] == s[i + 2] && rest[i + 1] == s[i + 3];
          }
        }
      }
      InsertZeroPairs(rest, c, d, u, v);
      var t := ReplaceAll(rest, pat, rep);
      assert r == rep + t;
      if rest != [] {
        ReplaceAllHead(rest, pat, rep);
        assert t[0] == s[2] && s[1] == d;
        assert !(d == u && t[0] == v) by {
          if NoPair(s, u, v) {
            assert !(s[1] == u && s[2] == v);
          }
        }
      }
      forall i | 0 <= i < |r| - 1 ensures !(r[i] == u && r[i + 1] == v) {
        if i >= 3 {
          assert r[i] == t[i - 3] && r[i + 1] == t[i - 2];
        }
      }
    } else {
      var rest := s[1..];
      assert NoPair(s, u, v) ==> NoPair(rest, u, v) by {
        if NoPair(s, u, v) {
          forall i | 0 <= i < |rest| - 1 ensures !(rest[i] == u && rest[i + 1] == v) {
            assert rest[i] == s[i + 1] && rest[i + 1] == s[i + 2];
          }
        }
      }
      InsertZeroPairs(rest, c, d, u, v);
      var t := ReplaceAll(rest, pat, rep);
      assert r == [s[0]] + t;
      ReplaceAllHead(rest, pat, rep);
      assert t[0] == s[1];
      assert !(s[0] == u && s[1] == v) by {
        if !NoPair(s, u, v) {
          assert s[..2] == [s[0], s[1]];
        }
      }
      forall i | 0 <= i < |r| - 1 ensures !(r[i] == u && r[i + 1] == v) {
        if i >= 1 {
          assert r[i] == t[i - 1] && r[i + 1] == t[i];
        }
      }
    }
  }

  /** A prefix holding no first character of the pattern is copied. */
  lemma {:induction false} ReplaceAllSkip(u: string, v: string, pat: string, rep: string)
    requires pat != [] && pat[0] !in u
    ensures ReplaceAll(u + v, pat, rep) == u + ReplaceAll(v, pat, rep)
    decreases |u|
  {
    var s := u + v;
    if u == [] {
      assert s == v;
    } else {
      assert s[0] == u[0] && s[1..] == u[1..] + v;
      assert u[0] in u;
      if |s| < |pat| {
        ReplaceAllShort(v, pat, rep);
        ReplaceAllShort(s, pat, rep);
      } else {
        ReplaceAllSkip(u[1..], v, pat, rep);
        assert !StartsWith(s, pat);
        assert ReplaceAll(s, pat, rep) == [u[0]] + (u[1..] + ReplaceAll(v, pat, rep));
        assert [u[0]] + u[1..] == u;
      }
    }
  }

  lemma ReplaceAllShort(v: string, pat: string, rep: string)
    requires pat != [] && |v| < |pat|
    ensures ReplaceAll(v, pat, rep) == v
  {
  }

  /** A text in which `c` never stands right before `d` is left alone. */
  lemma {:induction false} ReplaceAllNoPair(s: string, c: char, d: char, rep: string)
    requires NoPair(s, c, d)
    ensures ReplaceAll(s, [c, d], rep) == s
    decreases |s|
  {
    if |s| >= 2 {
      StartsWithIsPrefix(s, [c, d]);
      assert s[..2] == [s[0], s[1]];
      forall i | 0 <= i < |s[1..]| - 1
        ensures !(s[1..][i] == c && s[1..][i + 1] == d)
      {
        assert s[1..][i] == s[i + 1] && s[1..][i + 1] == s[i + 2];
      }
      ReplaceAllNoPair(s[1..], c, d, rep);
      assert [s[0]] + s[1..] == s;
    }
  }

  // ------------------------------------------------------------ what preprocess promises

  /** An empty side stays empty; otherwise the normalised side does not start
      with a sign, because a `0` was put in front of it. */
  lemma InsertZerosHead(s: string)
    ensures InsertZeros(s) == [] <==> Drop(' ', s) == []
    ensures InsertZeros(s) != [] ==> InsertZeros(s)[0] != '+' && InsertZeros(s)[0] != '-'
  {
    ReplaceCharByNothing(s, ' ');
    var e := ReplaceAll(s, " ", "");
    if e != [] {
      var e1 := if e[0] == '+' then "0" + e else e;
      var e2 := if e1[0] == '-' then "0" + e1 else e1;
      assert e2[0] != '+' && e2[0] != '-';
      var r1 := ReplaceAll(e2, "(+", "(0+");
      ReplaceAllHead(e2, "(+", "(0+");
      var r2 := ReplaceAll(r1, "(-", "(0-");
      ReplaceAllHead(r1, "(-", "(0-");
      ReplaceAllHead(r2, "+-", "+0-");
    }
  }

  /** Normalisation leaves no space. */
  lemma InsertZerosNoSpaces(s: string)
    ensures ' ' !in InsertZeros(s)
  {
    ReplaceCharByNothing(s, ' ');
    var e := ReplaceAll(s, " ", "");
    if e != [] {
      var e1 := if e[0] == '+' then "0" + e else e;
      var e2 := if e1[0] == '-' then "0" + e1 else e1;
      assert ' ' !in e2 by {
        assert e2 == e || e2 == "0" + e || e2 == "00" + e;
      }
      var r1 := ReplaceAll(e2, "(+", "(0+");
      var r2 := ReplaceAll(r1, "(-", "(0-");
      ReplaceAllKeepsAbsent(e2, "(+", "(0+", ' ');
      ReplaceAllKeepsAbsent(r1, "(-", "(0-", ' ');
      ReplaceAllKeepsAbsent(r2, "+-", "+0-", ' ');
    }
  }

  /** Normalisation only deletes spaces and inserts `0`s: with its `0`s taken
      out, the result is the input without spaces and `0`s. */
  lemma InsertZerosOnlyZeros(s: string)
    ensures Drop('0', InsertZeros(s)) == Drop('0', Drop(' ', s))
  {
    ReplaceCharByNothing(s, ' ');
    var e := ReplaceAll(s, " ", "");
    if e != [] {
      var e1 := if e[0] == '+' then "0" + e else e;
      var e2 := if e1[0] == '-' then "0" + e1 else e1;
      assert Drop('0', "0") == [];
      DropConcat('0', "0", e);
      DropConcat('0', "0", e1);
      assert Drop('0', e2) == Drop('0', e);
      var r1 := ReplaceAll(e2, "(+", "(0+");
      var r2 := ReplaceAll(r1, "(-", "(0-");
      DropZeroPair('(', '+');
      DropZeroPair('(', '-');
      DropZeroPair('+', '-');
      ReplaceAllDrop(e2, "(+", "(0+", '0');
      ReplaceAllDrop(r1, "(-", "(0-", '0');
      ReplaceAllDrop(r2, "+-", "+0-", '0');
    }
  }

  /** A `0` put between two characters disappears again once `0`s are
      taken out. */
  lemma DropZeroPair(a: char, b: char)
    ensures Drop('0', [a, '0', b]) == Drop('0', [a, b])
  {
    assert [a, '0', b][1..] == ['0', b];
    assert ['0', b][1..] == [b];
    assert [a, b][1..] == [b];
  }

  /** After normalisation no `(+`, `(-` or `+-` is left. */
  lemma InsertZerosNoPairs(s: string)
    ensures NoPair(InsertZeros(s), '(', '+')
    ensures NoPair(InsertZeros(s), '(', '-')
    ensures NoPair(InsertZeros(s), '+', '-')
  {
    var e := ReplaceAll(s, " ", "");
    if e != [] {
      var e1 := if e[0] == '+' then "0" + e else e;
      var e2 := if e1[0] == '-' then "0" + e1 else e1;
      var r1 := ReplaceAll(e2, "(+", "(0+");
      var r2 := ReplaceAll(r1, "(-", "(0-");
      InsertZeroPairs(e2, '(', '+', '(', '+');
      InsertZeroPairs(r1, '(', '-', '(', '+');
      InsertZeroPairs(r1, '(', '-', '(', '-');
      InsertZeroPairs(r2, '+', '-', '(', '+');
      InsertZeroPairs(r2, '+', '-', '(', '-');
      InsertZeroPairs(r2, '+', '-', '+', '-');
    }
  }

  /** The source's last rewrite of `--` keeps every promise of `InsertZeros`. */
  lemma NormalizeShape(s: string)
    ensures Normalize(s) == [] <==> Drop(' ', s) == []
    ensures Normalize(s) != [] ==> Normalize(s)[0] != '+' && Normalize(s)[0] != '-'
    ensures ' ' !in Normalize(s)
    ensures Drop('0', Normalize(s)) == Drop('0', Drop(' ', s))
    ensures NoPair(Normalize(s), '(', '+')
    ensures NoPair(Normalize(s), '(', '-')
    ensures NoPair(Normalize(s), '+', '-')
  {
    NormalizeHead(s);
    NormalizeOnlyZeros(s);
    NormalizeNoPairs(s);
  }

  lemma NormalizeHead(s: string)
    ensures Normalize(s) == [] <==> Drop(' ', s) == []
    ensures Normalize(s) != [] ==> Normalize(s)[0] != '+' && Normalize(s)[0] != '-'
    ensures ' ' !in Normalize(s)
  {
    var n := InsertZeros(s);
    InsertZerosHead(s);
    InsertZerosNoSpaces(s);
    if n != [] {
      ReplaceAllHead(n, "--", "-0-");
    }
    ReplaceAllKeepsAbsent(n, "--", "-0-", ' ');
  }

  lemma NormalizeOnlyZeros(s: string)
    ensures Drop('0', Normalize(s)) == Drop('0', Drop(' ', s))
  {
    InsertZerosOnlyZeros(s);
    DropZeroPair('-', '-');
    ReplaceAllDrop(InsertZeros(s), "--", "-0-", '0');
  }

  lemma NormalizeNoPairs(s: string)
    ensures NoPair(Normalize(s), '(', '+')
    ensures NoPair(Normalize(s), '(', '-')
    ensures NoPair(Normalize(s), '+', '-')
  {
    var n := InsertZeros(s);
    InsertZerosNoPairs(s);
    InsertZeroPairs(n, '-', '-', '(', '+');
    InsertZeroPairs(n, '-', '-', '(', '-');
    InsertZeroPairs(n, '-', '-', '+', '-');
  }

  /** What a preprocessed side looks like: no spaces, no leading sign, every
      `-` left in it is a binary minus (it follows an operand, a `)` or a
      `~`), and no `(+`. */
  lemma PreprocessedShape(s: string)
    ensures Preprocessed(s) == [] <==> Drop(' ', s) == []
    ensures ' ' !in Preprocessed(s)
    ensures Preprocessed(s) != [] ==> Preprocessed(s)[0] != '+' && Preprocessed(s)[0] != '-'
    ensures forall i :: 0 < i < |Preprocessed(s)| && Preprocessed(s)[i] == '-'
              ==> !IsNegationContext(Preprocessed(s)[i - 1])
    ensures NoPair(Preprocessed(s), '(', '+')
  {
    var n := Normalize(s);
    var r := Preprocessed(s);
    NormalizeHead(s);
    NormalizeNoPairs(s);
    assert r == MarkNegation(n);
    forall i | 0 <= i < |r| ensures r[i] == n[i] || (n[i] == '-' && r[i] == '~') {
      if i > 0 {
        assert r[i] == NegationStep(r[i - 1], n[i]);
      }
    }
  }

  // ------------------------------------------------------------ sides preprocess leaves alone

  /** The negation pass is the only string with its recurrence. */
  lemma MarkNegationUnique(s: string, t: string)
    requires |t| == |s| && (|s| > 0 ==> t[0] == s[0])
    requires forall i :: 1 <= i < |s| ==> t[i] == NegationStep(t[i - 1], s[i])
    ensures MarkNegation(s) == t
  {
    var r := MarkNegation(s);
    var k := 0;
    while k < |s|
      invariant k <= |s|
      invariant forall j :: 0 <= j < k ==> r[j] == t[j]
    {
      if k > 0 {
        assert r[k] == NegationStep(r[k - 1], s[k]);
      }
      k := k + 1;
    }
  }

  /** A side without spaces or leading sign, and without `(+`, `(-` or
      `+-`, is already normalised. */
  lemma InsertZerosPlain(s: string)
    requires ' ' !in s
    requires s != [] ==> s[0] != '+' && s[0] != '-'
    requires NoPair(s, '(', '+') && NoPair(s, '(', '-') && NoPair(s, '+', '-')
    ensures InsertZeros(s) == s
  {
    ReplaceAllSkip(s, [], " ", "");
    assert s + [] == s;
    ReplaceAllNoPair(s, '(', '+', "(0+");
    ReplaceAllNoPair(s, '(', '-', "(0-");
    ReplaceAllNoPair(s, '+', '-', "+0-");
  }

  /** A normalised side in which no `-` stands after `+ - * / (` is left
      as it is by `preprocess`. */
  lemma PreprocessedPlain(s: string)
    requires ' ' !in s
    requires s != [] ==> s[0] != '+' && s[0] != '-'
    requires NoPair(s, '(', '+') && NoPair(s, '(', '-') && NoPair(s, '+', '-')
    requires forall i :: 0 < i < |s| && s[i] == '-' ==> !IsNegationContext(s[i - 1])
    ensures Normalize(s) == s && Preprocessed(s) == s && PreprocessedIntended(s) == s
  {
    assert NoPair(s, '-', '-') by {
      forall i | 0 <= i < |s| - 1
        ensures !(s[i] == '-' && s[i + 1] == '-')
      {
        if s[i + 1] == '-' {
          assert !IsNegationContext(s[i]);
        }
      }
    }
    NormalizePlain(s);
    MarkNegationUnique(s, s);
  }

  /** Without `--` either, the source's last rewrite has nothing to do. */
  lemma NormalizePlain(s: string)
    requires ' ' !in s
    requires s != [] ==> s[0] != '+' && s[0] != '-'
    requires NoPair(s, '(', '+') && NoPair(s, '(', '-') && NoPair(s, '+', '-') && NoPair(s, '-', '-')
    ensures InsertZeros(s) == s && Normalize(s) == s
  {
    InsertZerosPlain(s);
    ReplaceAllNoPair(s, '-', '-', "-0-");
  }
}
