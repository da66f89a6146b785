/**
 * compare.c: the comparator handed to qsort, the line parser, and the
 * verdict of check_sorted_version: whether the second line of a file lists
 * the values of the first line in sorted order.
 *
 * A line is what fgets left in a `char[256]` buffer (at most 255 characters,
 * the newline included when it fitted). parse_line splits it with
 * `strtok(line, ",")` and converts every token with atoi. The C `int` is
 * two's complement of 32 bits; the values of a line are kept unbounded here.
 */
module Compare {
  import opened Sorting
  import opened Insertion

  const INT_MIN := -0x8000_0000
  const INT_MAX := 0x7fff_ffff

  /** x is a value of the C type int. */
  predicate IsInt(x: int) {
    INT_MIN <= x <= INT_MAX
  }

  /** Reduction of a mathematical integer to a 32-bit two's-complement int. */
  function Wrap32(x: int): (r: int)
    ensures IsInt(r) && (x - r) % 0x1_0000_0000 == 0
    ensures IsInt(x) ==> r == x
  {
    (x - INT_MIN) % 0x1_0000_0000 + INT_MIN
  }

  /**
   * compare as written, `*(int *)a - *(int *)b`, with the subtraction wrapping
   * around as 32-bit hardware does. Its sign is the order of a and b as long
   * as the difference is an int.
   */
  function CompareAsWritten(a: int, b: int): (r: int)
    requires IsInt(a) && IsInt(b)
    ensures IsInt(r)
    ensures IsInt(a - b) ==> (r < 0 <==> a < b) && (r == 0 <==> a == b) && (r > 0 <==> a > b)
  {
    Wrap32(a - b)
  }

  /** INT_MAX - (-1) overflows: compare calls INT_MAX smaller than -1. */
  lemma CompareOverflows()
    ensures IsInt(INT_MAX) && IsInt(-1) && INT_MAX > -1
    ensures CompareAsWritten(INT_MAX, -1) < 0
  {
    assert Wrap32(INT_MAX + 1) == INT_MIN;
  }

  /** A comparator whose sign is the order of a and b for every pair of ints. */
  function Compare(a: int, b: int): (r: int)
    ensures IsInt(r)
    ensures (r < 0 <==> a < b) && (r == 0 <==> a == b) && (r > 0 <==> a > b)
  {
    (if a > b then 1 else 0) - (if a < b then 1 else 0)
  }

  /** Where the difference fits in an int, the comparator as written and the corrected one agree in sign. */
  lemma CompareAgrees(a: int, b: int)
    requires IsInt(a) && IsInt(b) && IsInt(a - b)
    ensures (CompareAsWritten(a, b) < 0) == (Compare(a, b) < 0)
    ensures (CompareAsWritten(a, b) > 0) == (Compare(a, b) > 0)
  {
  }

  datatype Option<T> = None | Some(value: T)

  /** A token as strtok returns it: non-empty and without a comma. */
  predicate IsToken(t: string) {
    t != [] && forall k :: 0 <= k < |t| ==> t[k] != ','
  }

  /** s without its leading commas: where strtok starts looking for a token. */
  function SkipCommas(s: string): (t: string)
    ensures |t| <= |s| && (t == [] || t[0] != ',')
  {
    if s != [] && s[0] == ',' then SkipCommas(s[1..]) else s
  }

  /** What SkipCommas drops is a run of commas at the head of s; what it keeps is the rest of s. */
  lemma {:induction false} SkipCommasShape(s: string)
    ensures var t := SkipCommas(s); t == s[|s| - |t|..] && forall k :: 0 <= k < |s| - |t| ==> s[k] == ','
  {
    if s != [] && s[0] == ',' {
      SkipCommasShape(s[1..]);
    }
  }

  /** The length of the longest prefix of s without a comma. */
  function TokenLength(s: string): (n: nat)
    ensures n <= |s| && (n < |s| ==> s[n] == ',')
    ensures forall k :: 0 <= k < n ==> s[k] != ','
  {
    if s == [] || s[0] == ',' then 0 else 1 + TokenLength(s[1..])
  }

  /** What one successful call of strtok gives: the token and the text after the comma that ends it. */
  datatype Cut = Cut(token: string, rest: string)

  /**
   * One call of `strtok(..., ",")` on the text s still to be scanned: None
   * (NULL) when s holds commas only; otherwise the next token, a non-empty
   * run of non-commas, and the text after the comma that ends it.
   */
  function NextToken(s: string): (r: Option<Cut>)
    ensures r.Some? ==> IsToken(r.value.token) && |r.value.rest| < |s|
    ensures r.Some? ==> r.value.rest == [] || |r.value.token| + |r.value.rest| < |s|
  {
    var t := SkipCommas(s);
    if t == [] then None
    else
      var n := TokenLength(t);
      Some(Cut(t[..n], if n < |t| then t[n + 1..] else []))
  }

  /** The tokens strtok returns one after the other on s, in order. */
  function Tokens(s: string): (ts: seq<string>)
    decreases |s|
  {
    match NextToken(s)
    case None => []
    case Some(cut) => [cut.token] + Tokens(cut.rest)
  }

  /**
   * Every element of Tokens(s) is a token (non-empty, without a comma), and
   * there are none exactly when s holds nothing but commas.
   */
  lemma {:induction false} TokensShape(s: string)
    ensures forall i :: 0 <= i < |Tokens(s)| ==> IsToken(Tokens(s)[i])
    ensures Tokens(s) == [] <==> forall k :: 0 <= k < |s| ==> s[k] == ','
    decreases |s|
  {
    var t := SkipCommas(s);
    SkipCommasShape(s);
    match NextToken(s)
    case None =>
      assert t == [];
    case Some(cut) =>
      TokensShape(cut.rest);
      assert t != [] && s[|s| - |t|] == t[0] != ',';
  }

  /** strtok returns NULL exactly when what is left to scan holds nothing but commas. */
  lemma NextTokenNone(s: string)
    ensures NextToken(s).None? <==> forall k :: 0 <= k < |s| ==> s[k] == ','
  {
    TokensShape(s);
  }

  /**
   * Tokens are non-empty and separated by commas, so a line of n characters
   * has at most (n + 1) / 2 of them: the 255 characters fgets leaves in the
   * buffer give at most 128 values, which fit the `int[256]` arrays.
   */
  lemma {:induction false} TokensBound(s: string)
    ensures 2 * |Tokens(s)| <= |s| + 1
    decreases |s|
  {
    match NextToken(s)
    case None =>
    case Some(cut) =>
      TokensBound(cut.rest);
  }

  /** The tokens joined back with one comma between neighbours. */
  function Join(ts: seq<string>): (s: string)
  {
    if ts == [] then []
    else if |ts| == 1 then ts[0]
    else ts[0] + [','] + Join(ts[1..])
  }

  /** The comma-free prefix of t + u is t followed by that of u. */
  lemma {:induction false} TokenLengthAppend(t: string, u: string)
    requires forall k :: 0 <= k < |t| ==> t[k] != ','
    ensures TokenLength(t + u) == |t| + TokenLength(u)
    decreases |t|
  {
    if t != [] {
      assert (t + u)[0] == t[0] != ',';
      assert (t + u)[1..] == t[1..] + u;
      TokenLengthAppend(t[1..], u);
    } else {
      assert t + u == u;
    }
  }

  /** strtok on a lone token returns it and nothing after it. */
  lemma NextTokenLast(t: string)
    requires IsToken(t)
    ensures NextToken(t) == Some(Cut(t, []))
  {
    TokenLengthAppend(t, []);
    assert t + [] == t;
  }

  /** strtok on a token, a comma and more text returns the token and that text. */
  lemma NextTokenBefore(t: string, j: string)
    requires IsToken(t)
    ensures NextToken(t + [','] + j) == Some(Cut(t, j))
  {
    var s := t + [','] + j;
    TokenLengthAppend(t, [','] + j);
    assert s == t + ([','] + j);
    assert s[..|t|] == t && s[|t| + 1..] == j;
  }

  /** Splitting joined tokens gives the tokens back. */
  lemma {:induction false} TokensOfJoin(ts: seq<string>)
    requires forall i :: 0 <= i < |ts| ==> IsToken(ts[i])
    ensures Tokens(Join(ts)) == ts
    decreases |ts|
  {
    if |ts| == 1 {
      NextTokenLast(ts[0]);
      assert Tokens([]) == [];
    } else if |ts| > 1 {
      NextTokenBefore(ts[0], Join(ts[1..]));
      TokensOfJoin(ts[1..]);
      assert ts == [ts[0]] + ts[1..];
    }
  }

  /** The white-space characters atoi skips (isspace in the C locale). */
  predicate IsSpace(c: char) {
    c == ' ' || '\t' <= c <= '\r'
  }

  predicate IsDigit(c: char) {
    '0' <= c <= '9'
  }

  /** s without its leading white space: a suffix of s that does not start with a space. */
  function SkipSpace(s: string): (t: string)
    ensures |t| <= |s| && (t == [] || !IsSpace(t[0]))
  {
    if s != [] && IsSpace(s[0]) then SkipSpace(s[1..]) else s
  }

  /** What SkipSpace drops is a run of white space at the head of s; what it keeps is the rest of s. */
  lemma {:induction false} SkipSpaceShape(s: string)
    ensures var t := SkipSpace(s); t == s[|s| - |t|..] && forall k :: 0 <= k < |s| - |t| ==> IsSpace(s[k])
  {
    if s != [] && IsSpace(s[0]) {
      SkipSpaceShape(s[1..]);
    }
  }

  /** The longest prefix of s made of decimal digits. */
  function LeadingDigits(s: string): (d: string)
    ensures forall k :: 0 <= k < |d| ==> IsDigit(d[k])
  {
    if s != [] && IsDigit(s[0]) then [s[0]] + LeadingDigits(s[1..]) else []
  }

  /** The value of a string of decimal digits, most significant first. */
  function DigitsValue(d: string): (n: nat)
    requires forall k :: 0 <= k < |d| ==> IsDigit(d[k])
  {
    if d == [] then 0
    else
      var last := d[|d| - 1];
      assert IsDigit(last);
      DigitsValue(d[..|d| - 1]) * 10 + (last as int - '0' as int)
  }

  /**
   * atoi: leading white space is skipped, then an optional sign, then the
   * longest run of decimal digits is read; anything after it is ignored, and
   * a token without digits reads as 0.
   */
  function Atoi(s: string): (n: int)
  {
    var t := SkipSpace(s);
    if t != [] && t[0] == '-' then -(DigitsValue(LeadingDigits(t[1..])) as int)
    else if t != [] && t[0] == '+' then DigitsValue(LeadingDigits(t[1..]))
    else DigitsValue(LeadingDigits(t))
  }

  /**
   * Only a minus sign after the white space makes the value negative, and a
   * token whose first non-space character is neither a sign nor a digit
   * (or that is all white space) reads as 0.
   */
  lemma AtoiSign(s: string)
    ensures Atoi(s) < 0 ==> SkipSpace(s) != [] && SkipSpace(s)[0] == '-'
    ensures SkipSpace(s) == [] || (SkipSpace(s)[0] !in "+-" && !IsDigit(SkipSpace(s)[0])) ==> Atoi(s) == 0
  {
  }

  /** The decimal digits of n, most significant first, without leading zeros. */
  function Digits(n: nat): (d: string)
    ensures d != [] && forall k :: 0 <= k < |d| ==> IsDigit(d[k])
  {
    if n < 10 then [('0' as int + n) as char] else Digits(n / 10) + [('0' as int + n % 10) as char]
  }

  /** How printf("%d") writes n. */
  function Decimal(n: int): (s: string)
  {
    if n < 0 then ['-'] + Digits(-n) else Digits(n)
  }

  /** Reading the digits of n gives n back. */
  lemma {:induction false} DigitsValueOfDigits(n: nat)
    ensures DigitsValue(Digits(n)) == n
  {
    if n >= 10 {
      var d := Digits(n);
      assert d[..|d| - 1] == Digits(n / 10);
      DigitsValueOfDigits(n / 10);
    }
  }

  /** The digit run at the head of d + u is d when u does not go on with a digit. */
  lemma {:induction false} LeadingDigitsAppend(d: string, u: string)
    requires forall k :: 0 <= k < |d| ==> IsDigit(d[k])
    requires u == [] || !IsDigit(u[0])
    ensures LeadingDigits(d + u) == d
    decreases |d|
  {
    if d != [] {
      assert (d + u)[1..] == d[1..] + u;
      LeadingDigitsAppend(d[1..], u);
    } else {
      assert d + u == u;
    }
  }

  /**
   * atoi reads back what printf("%d") wrote, also with a tail that does not
   * start with a digit: the newline fgets keeps at the end of the last token.
   */
  lemma AtoiOfDecimal(n: int, u: string)
    requires u == [] || !IsDigit(u[0])
    ensures Atoi(Decimal(n) + u) == n
  {
    var d := Digits(if n < 0 then -n else n);
    AtoiOfDigits(d, u);
    if n < 0 {
      assert Decimal(n) + u == ['-'] + (d + u);
      DigitsValueOfDigits(-n);
    } else {
      DigitsValueOfDigits(n);
    }
  }

  /** atoi reads a run of digits, with or without a minus sign, up to the first non-digit. */
  lemma AtoiOfDigits(d: string, u: string)
    requires d != [] && forall k :: 0 <= k < |d| ==> IsDigit(d[k])
    requires u == [] || !IsDigit(u[0])
    ensures Atoi(d + u) == DigitsValue(d)
    ensures Atoi(['-'] + (d + u)) == -(DigitsValue(d) as int)
  {
    var s := d + u;
    assert s[0] == d[0] && IsDigit(s[0]);
    assert SkipSpace(s) == s;
    LeadingDigitsAppend(d, u);
    var m := ['-'] + s;
    assert SkipSpace(m) == m;
    assert m[1..] == s;
  }

  /** The values parse_line stores for the tokens ts, in order. */
  function Values(ts: seq<string>): (vs: seq<int>)
    ensures |vs| == |ts| && forall i :: 0 <= i < |ts| ==> vs[i] == Atoi(ts[i])
  {
    if ts == [] then [] else [Atoi(ts[0])] + Values(ts[1..])
  }

  /**
   * parse_line: stores the value of every token of the line, in order, at
   * the head of arr and returns how many there are; the rest of arr is
   * left as it was. rest is what strtok keeps between calls.
   */
  method ParseLine(line: string, arr: array<int>) returns (count: int)
    requires |Tokens(line)| <= arr.Length
    modifies arr
    ensures count == |Tokens(line)|
    ensures arr[..count] == Values(Tokens(line))
    ensures arr[count..] == old(arr[count..])
  {
    ghost var ts := Tokens(line);
    ghost var s0 := arr[..];
    count := 0;
    var rest := line;
    var next := NextToken(rest);
    while next.Some?
      invariant 0 <= count <= |ts| && Tokens(rest) == ts[count..]
      invariant next == NextToken(rest)
      invariant arr[..] == Values(ts[..count]) + s0[count..]
      decreases |rest|
    {
      var cut := next.value;
      ParseStep(ts, count, rest);
      ghost var before := arr[..];
      arr[count] := Atoi(cut.token);
      assert arr[..] == before[count := Atoi(cut.token)];
      ParseStore(ts, s0, before, count);
      count := count + 1;
      rest := cut.rest;
      next := NextToken(rest);
    }
    ParseEnd(ts, count, rest);
    ParseDone(ts, s0, arr[..], count);
  }

  /** One more strtok call: the token it returns is the next of ts, and the tokens left are the rest of ts. */
  lemma ParseStep(ts: seq<string>, count: int, rest: string)
    requires 0 <= count <= |ts| && Tokens(rest) == ts[count..] && NextToken(rest).Some?
    ensures var cut := NextToken(rest).value; count < |ts| && ts[count] == cut.token && Tokens(cut.rest) == ts[count + 1..]
  {
    var cut := NextToken(rest).value;
    DropHead(ts, count, cut.token, Tokens(cut.rest));
  }

  /** strtok returns NULL only once every token of ts has been read. */
  lemma ParseEnd(ts: seq<string>, count: int, rest: string)
    requires 0 <= count <= |ts| && Tokens(rest) == ts[count..] && NextToken(rest).None?
    ensures count == |ts|
  {
    assert Tokens(rest) == [];
  }

  /** Storing the atoi of the next token extends the parsed prefix by one value. */
  lemma ParseStore(ts: seq<string>, s0: seq<int>, s: seq<int>, count: int)
    requires 0 <= count < |ts| && count < |s0| && s == Values(ts[..count]) + s0[count..]
    ensures s[count := Atoi(ts[count])] == Values(ts[..count + 1]) + s0[count + 1..]
  {
    assert ts[..count + 1][..count] == ts[..count];
  }

  /**
   * When the loop stops, the array holds the atoi of every token, in order,
   * and nothing else changed.
   */
  lemma ParseDone(ts: seq<string>, s0: seq<int>, s: seq<int>, count: int)
    requires 0 <= count == |ts| <= |s0| && s == Values(ts[..count]) + s0[count..]
    ensures s[..count] == Values(ts) && s[count..] == s0[count..]
  {
    assert ts[..count] == ts;
  }

  /** The step of the parsing loop: what is left of xs from k on is y followed by ys. */
  lemma DropHead<T>(xs: seq<T>, k: int, y: T, ys: seq<T>)
    requires 0 <= k <= |xs| && xs[k..] == [y] + ys
    ensures k < |xs| && xs[k] == y && xs[k + 1..] == ys
  {
    assert xs[k..][0] == y;
    assert xs[k + 1..] == xs[k..][1..];
  }

  /**
   * The loop of check_sorted_version: walks both arrays from the start and
   * stops at the first cell where they differ. The answer is whether the
   * first n cells agree.
   */
  method SamePrefix(a: array<int>, b: array<int>, n: int) returns (same: bool)
    requires 0 <= n <= a.Length && n <= b.Length
    ensures same <==> a[..n] == b[..n]
  {
    for i := 0 to n
      invariant a[..i] == b[..i]
    {
      if a[i] != b[i] {
        assert a[..n][i] != b[..n][i];
        return false;
      }
    }
    return true;
  }

  /** v2 lists the values of v1 in non-decreasing order. */
  ghost predicate IsSortedVersion(v1: seq<int>, v2: seq<int>) {
    |v1| == |v2| && SortedBetween(v2, 0, |v2|) && multiset(v1) == multiset(v2)
  }

  /**
   * Why comparing with the sorted copy decides the question: when s is the
   * first line's values sorted, the second line's values v2 are equal to s
   * exactly when they are non-decreasing and a rearrangement of the first.
   */
  lemma SortedVersionIff(s: seq<int>, v1: seq<int>, v2: seq<int>)
    requires SortedBetween(s, 0, |s|) && multiset(s) == multiset(v1)
    ensures s == v2 <==> IsSortedVersion(v1, v2)
  {
    if IsSortedVersion(v1, v2) {
      SortedUnique(s, v2);
    }
    if s == v2 {
      assert |s| == |multiset(s)| == |multiset(v1)| == |v1|;
    }
  }

  /**
   * The verdict of check_sorted_version on the two lines fgets read: true
   * ("is a sorted version") exactly when both lines have the same number of
   * values and the second line's values are non-decreasing and a
   * rearrangement of the first line's. qsort is InsertionSort here, so the
   * values are sorted by their true order (see Compare).
   */
  method CheckSortedVersion(line1: string, line2: string) returns (sorted: bool)
    requires |line1| < 256 && |line2| < 256
    ensures sorted <==> IsSortedVersion(Values(Tokens(line1)), Values(Tokens(line2)))
  {
    ghost var v1, v2 := Values(Tokens(line1)), Values(Tokens(line2));
    TokensBound(line1);
    TokensBound(line2);
    var arr1 := new int[256];
    var arr2 := new int[256];
    var n1 := ParseLine(line1, arr1);
    var n2 := ParseLine(line2, arr2);
    if n1 != n2 {
      assert |v1| != |v2|;
      return false;
    }
    ghost var before := arr1[..];
    assert before[..n1] == v1;
    InsertionSort(arr1, 0, n1 - 1);
    ghost var s1 := SortedPrefix(before, arr1[..], n1);
    assert arr2[..n1] == v2;
    sorted := SamePrefix(arr1, arr2, n1);
    assert sorted <==> s1 == v2;
    SortedVersionIff(s1, v1, v2);
  }

  /**
   * What the sort leaves in the head of the array: sorting [0, n) of before
   * into after makes after[..n] a non-decreasing rearrangement of before[..n].
   */
  lemma SortedPrefix(before: seq<int>, after: seq<int>, n: int) returns (s: seq<int>)
    requires 0 <= n <= |before| == |after|
    requires 0 < n - 1 ==> SortedBetween(after, 0, n) && PermutedRange(before, after, 0, n)
    requires n - 1 <= 0 ==> after == before
    ensures s == after[..n] && SortedBetween(s, 0, n)
    ensures multiset(s) == multiset(before[..n])
  {
    s := after[..n];
    if 0 < n - 1 {
      RangeMultiset(before, after, 0, n);
      assert forall i, j :: 0 <= i < j < n ==> s[i] == after[i] && s[j] == after[j];
    }
  }
}
