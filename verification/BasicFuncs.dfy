/** The string helpers of f1g_basic_funcs.c: search, comparison and stripping over stretches of a
    buffer, each against a function on the stretch. */
module BasicFuncs {
  // ---------------------------------------------------------------- functions on strings

  predicate At(s: string, k: nat, sub: string) {
    k + |sub| <= |s| && s[k..k + |sub|] == sub
  }

  /** The index of the first occurrence, or -1. */
  function Find(s: string, sub: string): (i: int)
    ensures -1 <= i && (i != -1 ==> i + |sub| <= |s|)
  {
    FindFrom(s, sub, 0)
  }

  function FindFrom(s: string, sub: string, k: nat): (i: int)
    ensures -1 <= i && (i != -1 ==> i + |sub| <= |s|)
    decreases |s| - k
  {
    if |s| < k + |sub| then -1
    else if At(s, k, sub) then k
    else FindFrom(s, sub, k + 1)
  }

  lemma {:induction false} FindFromIsFirst(s: string, sub: string, k: nat)
    ensures var i := FindFrom(s, sub, k);
            (i != -1 ==> k <= i && At(s, i, sub)) && forall j: nat | k <= j && (i == -1 || j < i) :: !At(s, j, sub)
    decreases |s| - k
  {
    if k + |sub| <= |s| && !At(s, k, sub) {
      FindFromIsFirst(s, sub, k + 1);
    }
  }

  /** Find meets its comment, and is determined by it. */
  lemma FindIsFirst(s: string, sub: string)
    ensures Find(s, sub) != -1 ==> At(s, Find(s, sub), sub)
    ensures forall j: nat | Find(s, sub) == -1 || j < Find(s, sub) :: !At(s, j, sub)
  {
    FindFromIsFirst(s, sub, 0);
  }

  lemma FindIs(s: string, sub: string, i: nat)
    requires At(s, i, sub) && forall k: nat | k < i :: !At(s, k, sub)
    ensures Find(s, sub) == i
  {
    FindIsFirst(s, sub);
  }

  lemma FindIsNot(s: string, sub: string)
    requires forall k: nat :: !At(s, k, sub)
    ensures Find(s, sub) == -1
  {
    FindIsFirst(s, sub);
  }

  function SkipChar(s: string, ch: char): (r: string)
    ensures |r| <= |s|
  {
    if s != "" && s[0] == ch then SkipChar(s[1..], ch) else s
  }

  function StripChar(s: string, ch: char): (r: string)
    ensures |r| <= |s|
  {
    if s != "" && s[|s| - 1] == ch then StripChar(s[..|s| - 1], ch) else s
  }

  /** Without the spaces at both ends. */
  function Trim(s: string): string {
    StripChar(SkipChar(s, ' '), ' ')
  }

  predicate NoEdgeSpaces(s: string) {
    s != "" ==> s[0] != ' ' && s[|s| - 1] != ' '
  }

  lemma TrimOfTrimmed(s: string)
    requires NoEdgeSpaces(s)
    ensures Trim(s) == s
  {
  }

  lemma TrimAfterSpace(s: string)
    ensures Trim(" " + s) == Trim(s)
  {
    assert (" " + s)[1..] == s;
  }

  /** What is cut off is spaces, and nothing else is left to cut. */
  lemma {:induction false} SkippedAreSpaces(s: string) returns (n: nat)
    ensures s == Spaces(n) + SkipChar(s, ' ') && (SkipChar(s, ' ') != "" ==> SkipChar(s, ' ')[0] != ' ')
  {
    if s != "" && s[0] == ' ' {
      n := SkippedAreSpaces(s[1..]);
      n := n + 1;
      assert s == [' '] + s[1..];
      assert Spaces(n) == [' '] + Spaces(n - 1);
    } else {
      n := 0;
    }
  }

  lemma {:induction false} StrippedAreSpaces(s: string) returns (n: nat)
    ensures s == StripChar(s, ' ') + Spaces(n) && (var r := StripChar(s, ' '); r != "" ==> r[|r| - 1] != ' ')
    ensures StripChar(s, ' ') <= s
  {
    if s != "" && s[|s| - 1] == ' ' {
      n := StrippedAreSpaces(s[..|s| - 1]);
      n := n + 1;
      assert s == s[..|s| - 1] + [' '];
      assert Spaces(n) == Spaces(n - 1) + [' '];
    } else {
      n := 0;
    }
  }

  lemma TrimIs(s: string) returns (a: nat, b: nat)
    ensures s == Spaces(a) + Trim(s) + Spaces(b) && NoEdgeSpaces(Trim(s))
  {
    a := SkippedAreSpaces(s);
    b := StrippedAreSpaces(SkipChar(s, ' '));
    assert Trim(s) != "" ==> Trim(s)[0] == SkipChar(s, ' ')[0];
  }

  // ---------------------------------------------------------------- methods on stretches

  /** From this length on cmp_str works by halves. */
  const SHORT := 512

  /** The positions that cmp_str looks at when it compares `n` characters: all of them for short
      strings; for long ones the middle one, and those of the two halves less their last character. */
  predicate Compared(n: nat, i: nat) {
    if n < SHORT then i < n
    else i == n / 2 || Compared(n / 2 - 1, i) || (i >= n / 2 && Compared(n / 2 - 1, i - n / 2))
  }

  lemma {:induction false} ComparedIsInside(n: nat, i: nat)
    ensures Compared(n, i) ==> i < n
  {
    if n >= SHORT {
      ComparedIsInside(n / 2 - 1, i);
      if i >= n / 2 {
        ComparedIsInside(n / 2 - 1, i - n / 2);
      }
    }
  }

  /** A position is skipped exactly if the string is long: the one in front of the middle, at least. */
  lemma SkipsFromShort(n: nat)
    ensures (forall i: nat | i < n :: Compared(n, i)) <==> n < 512
  {
    if n >= SHORT {
      var i: nat := n / 2 - 1;
      ComparedIsInside(n / 2 - 1, i);
      assert i < n && i < n / 2 && !Compared(n / 2 - 1, i);
      assert !Compared(n, i);
    } else {
      forall i: nat | i < n
        ensures Compared(n, i)
      {
      }
    }
  }

  /** Halved once, a string is compared except in front of its middle and behind its second half. */
  lemma SkippedByOneHalving(n: nat, i: nat)
    requires 512 <= n < 1026
    ensures Compared(n, i) <==> i < n / 2 + n / 2 - 1 && i != n / 2 - 1
  {
  }

  /** What cmp_str takes for equality. */
  ghost predicate Agree(a: string, b: string) {
    |a| == |b| && forall i: nat | i < |a| && Compared(|a|, i) :: a[i] == b[i]
  }

  /** cmp_str tells two strings apart unless they differ only where it does not look, which it does not
      everywhere exactly from SHORT on. */
  lemma AgreeIsEquality(sub: string)
    ensures (forall s: string :: Agree(s, sub) ==> s == sub) <==> |sub| < 512
  {
    if |sub| >= SHORT {
      SkipsFromShort(|sub|);
      var i: nat :| i < |sub| && !Compared(|sub|, i);
      var other := sub[i := if sub[i] == 'a' then 'b' else 'a'];
      assert Agree(other, sub) && other[i] != sub[i];
    } else {
      forall s: string | Agree(s, sub)
        ensures s == sub
      {
        AgreeShort(s, sub);
      }
    }
  }

  lemma AgreeShort(a: string, b: string)
    requires |b| < SHORT
    ensures Agree(a, b) <==> a == b
  {
    if Agree(a, b) {
      assert forall i: nat | i < |a| :: Compared(|a|, i) && a[i] == b[i];
    }
  }

  /** Concretely: 512 letters a, and the same with a b at position 255. */
  lemma LongStringsAgree()
    ensures
      var a := seq(512, _ => 'a');
      Agree(a, a[255 := 'b']) && a != a[255 := 'b']
  {
    var a := seq(512, _ => 'a');
    ComparedIsInside(255, 255);
    assert !Compared(512, 255);
    assert a[255] != a[255 := 'b'][255];
  }

  /** The two halves that cmp_str goes on with. */
  function LowerHalf(s: string): (r: string)
    requires |s| >= SHORT
    ensures |r| == |s| / 2 - 1
  {
    s[..|s| / 2 - 1]
  }

  function UpperHalf(s: string): (r: string)
    requires |s| >= SHORT
    ensures |r| == |s| / 2 - 1
  {
    s[|s| / 2..][..|s| / 2 - 1]
  }

  lemma HalvesFollow(a: string, b: string)
    requires Agree(a, b) && |a| >= SHORT
    ensures a[|a| / 2] == b[|a| / 2] && Agree(LowerHalf(a), LowerHalf(b)) && Agree(UpperHalf(a), UpperHalf(b))
  {
    var n, mid := |a|, |a| / 2;
    assert Compared(n, mid);
    forall i: nat | i < mid - 1 && Compared(mid - 1, i)
      ensures LowerHalf(a)[i] == LowerHalf(b)[i] && UpperHalf(a)[i] == UpperHalf(b)[i]
    {
      assert Compared(n, i) && a[i] == b[i];
      assert Compared(n, mid + i) && a[mid + i] == b[mid + i];
    }
  }

  lemma HalvesSuffice(a: string, b: string)
    requires |a| == |b| && |a| >= SHORT && a[|a| / 2] == b[|a| / 2]
    requires Agree(LowerHalf(a), LowerHalf(b)) && Agree(UpperHalf(a), UpperHalf(b))
    ensures Agree(a, b)
  {
    var n, mid := |a|, |a| / 2;
    forall i: nat | i < n && Compared(n, i)
      ensures a[i] == b[i]
    {
      ComparedIsInside(mid - 1, i);
      if Compared(mid - 1, i) {
        assert LowerHalf(a)[i] == LowerHalf(b)[i];
      } else if i != mid {
        ComparedIsInside(mid - 1, i - mid);
        assert UpperHalf(a)[i - mid] == UpperHalf(b)[i - mid];
      }
    }
  }

  /** The loop of cmp_str. */
  method CmpShort(data: string, at: nat, sub: string, from: nat, n: nat, ghost a: string, ghost b: string)
    returns (equal: bool)
    requires at + n <= |data| && from + n <= |sub| && a == data[at..at + n] && b == sub[from..from + n]
    ensures equal <==> a == b
  {
    for i := 0 to n
      invariant a[..i] == b[..i]
    {
      assert a[i] == data[at + i] && b[i] == sub[from + i];
      if data[at + i] != sub[from + i] {
        return false;
      }
    }
    assert a[..n] == a && b[..n] == b;
    return true;
  }

  /** cmp_str on `n` characters, at `at` and at `from`; `a` and `b` are those. */
  method CmpStr(data: string, at: nat, sub: string, from: nat, n: nat, ghost a: string, ghost b: string)
    returns (equal: bool)
    requires at + n <= |data| && from + n <= |sub| && a == data[at..at + n] && b == sub[from..from + n]
    ensures equal <==> Agree(a, b)
    decreases n
  {
    if n < SHORT {
      AgreeShort(a, b);
      equal := CmpShort(data, at, sub, from, n, a, b);
      return;
    }
    var mid := n / 2;
    PartsOf(data, at, n, a);
    PartsOf(sub, from, n, b);
    HalvesDecide(a, b);
    if data[at + mid] != sub[from + mid] {
      return false;
    }
    var first := CmpStr(data, at, sub, from, mid - 1, LowerHalf(a), LowerHalf(b));
    var second := CmpStr(data, at + mid, sub, from + mid, mid - 1, UpperHalf(a), UpperHalf(b));
    return first && second;
  }

  lemma HalvesDecide(a: string, b: string)
    requires |a| == |b| && |a| >= SHORT
    ensures Agree(a, b) <==>
            a[|a| / 2] == b[|b| / 2] && Agree(LowerHalf(a), LowerHalf(b)) && Agree(UpperHalf(a), UpperHalf(b))
  {
    if Agree(a, b) {
      HalvesFollow(a, b);
    } else if a[|a| / 2] == b[|b| / 2] && Agree(LowerHalf(a), LowerHalf(b)) && Agree(UpperHalf(a), UpperHalf(b)) {
      HalvesSuffice(a, b);
    }
  }

  lemma PartsOf(s: string, at: nat, n: nat, a: string)
    requires at + n <= |s| && n >= SHORT && a == s[at..at + n]
    ensures LowerHalf(a) == s[at..at + (n / 2 - 1)]
    ensures UpperHalf(a) == s[at + n / 2..at + n / 2 + (n / 2 - 1)]
    ensures a[n / 2] == s[at + n / 2]
  {
  }

  /** What cmp_str takes for an occurrence. */
  ghost predicate Matches(data: string, at: nat, sub: string)
    requires at + |sub| <= |data|
  {
    Agree(data[at..at + |sub|], sub)
  }

  lemma MatchesShort(data: string, at: nat, sub: string)
    requires at + |sub| <= |data| && |sub| < SHORT
    ensures Matches(data, at, sub) <==> At(data, at, sub)
  {
    AgreeShort(data[at..at + |sub|], sub);
  }

  /** cmp_str with a whole needle. */
  method MatchesAt(data: string, at: nat, sub: string) returns (equal: bool)
    requires at + |sub| <= |data|
    ensures equal <==> Matches(data, at, sub)
  {
    assert sub[0..|sub|] == sub;
    equal := CmpStr(data, at, sub, 0, |sub|, data[at..at + |sub|], sub);
  }

  lemma AtInStretch(data: string, b: nat, e: nat, k: nat, sub: string)
    requires b <= e <= |data| && b + k + |sub| <= e
    ensures At(data[b..e], k, sub) <==> At(data, b + k, sub)
  {
    SliceOfSlice(data, b, e, k, k + |sub|);
  }

  lemma Cut(s: string, b: nat, e: nat, i: nat)
    requires b <= i <= e <= |s|
    ensures s[b..e][..i - b] == s[b..i] && s[b..e][i - b..] == s[i..e]
  {
    SliceOfSlice(s, b, e, 0, i - b);
    SliceOfSlice(s, b, e, i - b, e - b);
  }

  lemma SliceOfSlice(s: string, b: nat, e: nat, i: nat, j: nat)
    requires b <= e <= |s| && i <= j <= e - b
    ensures s[b..e][i..j] == s[b + i..b + j]
  {
    var inner, outer := s[b..e][i..j], s[b + i..b + j];
    forall k | 0 <= k < j - i
      ensures inner[k] == outer[k]
    {
    }
  }

  /** cmp_str2: does the stretch [b, e) begin with `sub`? */
  method CmpStr2(data: string, b: nat, e: int, sub: string) returns (equal: bool)
    requires b <= |data| && e <= |data|
    ensures equal <==> b + |sub| <= e && Matches(data, b, sub)
    ensures |sub| < SHORT ==> (equal <==> b <= e && sub <= data[b..e])
  {
    if e - b < |sub| {
      return false;
    }
    equal := MatchesAt(data, b, sub);
    if |sub| < SHORT {
      MatchesShort(data, b, sub);
      AtInStretch(data, b, e, 0, sub);
    }
  }

  /** find_str in [b, e): the position, or -1 where the code has NULL. */
  method FindStr(data: string, b: nat, e: int, sub: string) returns (loc: int)
    requires b <= |data| && e <= |data|
    ensures loc != -1 ==> b <= loc && loc + |sub| <= e && Matches(data, loc, sub)
    ensures forall k: nat | b <= k && k + |sub| <= e && (loc == -1 || k < loc) :: !Matches(data, k, sub)
    ensures |sub| < SHORT ==>
              loc == if e < b || Find(data[b..e], sub) == -1 then -1 else b + Find(data[b..e], sub)
  {
    var pb := b;
    while e - pb >= |sub|
      invariant b <= pb
      invariant forall k: nat | b <= k < pb && k + |sub| <= e :: !Matches(data, k, sub)
      decreases e - pb
    {
      var equal := MatchesAt(data, pb, sub);
      if equal {
        if |sub| < SHORT {
          FirstMatchIsFind(data, b, e, sub, pb);
        }
        return pb;
      }
      pb := pb + 1;
    }
    if |sub| < SHORT && b <= e {
      FirstMatchIsFind(data, b, e, sub, -1);
    }
    return -1;
  }

  lemma FirstMatchIsFind(data: string, b: nat, e: nat, sub: string, loc: int)
    requires b <= e <= |data| && |sub| < SHORT
    requires loc != -1 ==> b <= loc && loc + |sub| <= e && Matches(data, loc, sub)
    requires forall k: nat | b <= k && k + |sub| <= e && (loc == -1 || k < loc) :: !Matches(data, k, sub)
    ensures Find(data[b..e], sub) == if loc == -1 then -1 else loc - b
  {
    var s := data[b..e];
    forall k: nat | loc == -1 || k < loc - b
      ensures !At(s, k, sub)
    {
      if b + k + |sub| <= e {
        MatchesShort(data, b + k, sub);
        AtInStretch(data, b, e, k, sub);
      }
    }
    if loc == -1 {
      FindIsNot(s, sub);
    } else {
      MatchesShort(data, loc, sub);
      AtInStretch(data, b, e, loc - b, sub);
      FindIs(s, sub, loc - b);
    }
  }

  lemma {:induction false} SkipIs(data: string, b: nat, p: nat, e: nat, ch: char)
    requires b <= p <= e <= |data|
    requires forall k | b <= k < p :: data[k] == ch
    requires p < e ==> data[p] != ch
    ensures SkipChar(data[b..e], ch) == data[p..e]
    decreases p - b
  {
    if b < p {
      assert data[b..e][1..] == data[b + 1..e];
      SkipIs(data, b + 1, p, e, ch);
    }
  }

  lemma {:induction false} StripIs(data: string, b: nat, p: nat, e: nat, ch: char)
    requires b <= p <= e <= |data|
    requires forall k | p <= k < e :: data[k] == ch
    requires b < p ==> data[p - 1] != ch
    ensures StripChar(data[b..e], ch) == data[b..p]
    decreases e - p
  {
    if p < e {
      assert data[b..e][..e - b - 1] == data[b..e - 1];
      StripIs(data, b, p, e - 1, ch);
    }
  }

  /** skip_char on [b, e): where the first other character is. */
  method SkipCharAt(data: string, b: nat, e: int, ch: char) returns (p: nat)
    requires b <= |data| && e <= |data|
    ensures if b <= e then b <= p <= e && data[p..e] == SkipChar(data[b..e], ch) else p == b
  {
    p := b;
    while p < e && ch == data[p]
      invariant b <= p && (if b <= e then p <= e else p == b)
      invariant forall k | b <= k < p :: data[k] == ch
      decreases e - p
    {
      p := p + 1;
    }
    if b <= e {
      SkipIs(data, b, p, e, ch);
    }
  }

  /** strip_char on [b, e): where the last other character is, or b - 1. */
  method StripCharAt(data: string, b: nat, e: nat, ch: char) returns (last: int)
    requires b <= e <= |data|
    ensures b - 1 <= last < e && data[b..last + 1] == StripChar(data[b..e], ch)
  {
    last := e - 1;
    while last >= b && data[last] == ch
      invariant b - 1 <= last < e
      invariant forall k | last < k < e :: data[k] == ch
    {
      last := last - 1;
    }
    StripIs(data, b, last + 1, e, ch);
  }

  // ---------------------------------------------------------------- single characters and spaces

  /** A single character is found where it first stands. */
  lemma CharIsFound(x: string, c: char, rest: string)
    requires c !in x
    ensures Find(x + ([c] + rest), [c]) == |x|
  {
    var s := x + ([c] + rest);
    assert s[|x|..|x| + 1] == [c];
    forall k: nat | k < |x|
      ensures !At(s, k, [c])
    {
      assert s[k..k + 1][0] == x[k];
    }
    FindIs(s, [c], |x|);
  }

  lemma CharIsNotFound(x: string, c: char)
    requires c !in x
    ensures Find(x, [c]) == -1
  {
    forall k: nat
      ensures !At(x, k, [c])
    {
      if k + 1 <= |x| {
        assert x[k..k + 1][0] == x[k];
      }
    }
    FindIsNot(x, [c]);
  }

  function Spaces(n: nat): string {
    seq(n, _ => ' ')
  }

  lemma SpacesAreSkipped(n: nat, rest: string)
    requires rest != "" ==> rest[0] != ' '
    ensures SkipChar(Spaces(n) + rest, ' ') == rest
  {
    var s := Spaces(n) + rest;
    SkipIs(s, 0, n, |s|, ' ');
    assert s[0..|s|] == s && s[n..|s|] == rest;
  }

  lemma SpacesAreStripped(rest: string, n: nat)
    requires rest != "" ==> rest[|rest| - 1] != ' '
    ensures StripChar(rest + Spaces(n), ' ') == rest
  {
    var s := rest + Spaces(n);
    StripIs(s, 0, |rest|, |s|, ' ');
    assert s[0..|s|] == s && s[0..|rest|] == rest;
  }
}
