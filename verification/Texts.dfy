/** Text helpers shared by the models: optional column values, decimal rendering, and
    the pipe-delimited layout behind every audit row hash. */
module Texts {

  datatype Option<+T> = None | Some(value: T)

  /** An optional column rendered into the canonical string: NULL becomes the empty text. */
  function OrEmpty(o: Option<string>): string {
    match o
    case None => ""
    case Some(s) => s
  }

  lemma Regroup<T>(a: seq<T>, b: seq<T>, c: seq<T>)
    ensures a + b + c == a + (b + c)
  {
  }

  /** How an optional column reads in a text: its value, and NULL as nothing. */
  predicate Renders(o: Option<string>, s: string) {
    o == Some(s) || (o == None && s == "")
  }

  lemma OrEmptyRenders(o: Option<string>, s: string)
    ensures Renders(o, s) <==> OrEmpty(o) == s
  {
  }

  // ---------------------------------------------------------------- decimal numerals

  function DigitChar(d: nat): char
    requires d < 10
  {
    ('0' as int + d) as char
  }

  function Digits(n: nat): string {
    if n < 10 then [DigitChar(n)] else Digits(n / 10) + [DigitChar(n % 10)]
  }

  /** How Python formats an int. */
  function Decimal(n: int): string {
    if n < 0 then "-" + Digits(-n) else Digits(n)
  }

  predicate IsDigit(c: char) {
    '0' <= c <= '9'
  }

  lemma {:induction false} DigitsAlphabet(n: nat)
    ensures |Digits(n)| > 0
    ensures forall c :: c in Digits(n) ==> IsDigit(c)
  {
    if n >= 10 {
      DigitsAlphabet(n / 10);
    }
  }

  lemma DecimalAlphabet(n: int)
    ensures |Decimal(n)| > 0
    ensures forall c :: c in Decimal(n) ==> IsDigit(c) || c == '-'
    ensures '|' !in Decimal(n)
    ensures Decimal(n)[0] == '-' <==> n < 0
  {
    DigitsAlphabet(if n < 0 then -n else n);
    if n >= 0 {
      assert Decimal(n)[0] in Digits(n);
    }
  }

  lemma {:induction false} DigitsInjective(m: nat, n: nat)
    requires Digits(m) == Digits(n)
    ensures m == n
  {
    DigitsAlphabet(m / 10);
    DigitsAlphabet(n / 10);
    var s, t := Digits(m), Digits(n);
    assert s[|s| - 1] == DigitChar(m % 10);
    assert t[|t| - 1] == DigitChar(n % 10);
    if m >= 10 && n >= 10 {
      assert s[..|s| - 1] == Digits(m / 10);
      assert t[..|t| - 1] == Digits(n / 10);
      DigitsInjective(m / 10, n / 10);
    }
  }

  lemma DecimalInjective(m: int, n: int)
    requires Decimal(m) == Decimal(n)
    ensures m == n
  {
    DecimalAlphabet(m);
    DecimalAlphabet(n);
    if m < 0 {
      assert Decimal(m)[1..] == Digits(-m);
      assert Decimal(n)[1..] == Digits(-n);
      DigitsInjective(-m, -n);
    } else {
      DigitsInjective(m, n);
    }
  }

  /** The number a text of digits denotes in base ten, most significant digit first. */
  ghost function NumberOf(digits: string): int {
    if digits == [] then 0 else 10 * NumberOf(digits[..|digits| - 1]) + (digits[|digits| - 1] as int - '0' as int)
  }

  lemma {:induction false} DigitsReadBack(n: nat)
    ensures NumberOf(Digits(n)) == n
    ensures Digits(n)[0] == '0' ==> n == 0
  {
    DigitsAlphabet(n);
    if n >= 10 {
      DigitsReadBack(n / 10);
      DigitsAlphabet(n / 10);
      assert Digits(n)[..|Digits(n)| - 1] == Digits(n / 10);
      assert Digits(n)[0] == Digits(n / 10)[0];
    } else {
      assert Digits(n)[..0] == [];
    }
  }

  /** A number is rendered by its digits in base ten, without leading zeros, after a minus sign if it
      is negative. */
  lemma DecimalReadsBack(n: int)
    ensures var digits := if n < 0 then Decimal(n)[1..] else Decimal(n);
            && digits != [] && (forall c :: c in digits ==> '0' <= c <= '9')
            && (digits[0] == '0' ==> n == 0)
            && (n < 0 ==> Decimal(n)[0] == '-')
            && n == if n < 0 then -NumberOf(digits) else NumberOf(digits)
  {
    DecimalAlphabet(n);
    DigitsAlphabet(if n < 0 then -n else n);
    DigitsReadBack(if n < 0 then -n else n);
    if n < 0 {
      assert Decimal(n)[1..] == Digits(-n);
    }
  }

  // ---------------------------------------------------------------- pipe-delimited text

  /** Fields separated by pipes. */
  function Join(fields: seq<string>): string {
    if fields == [] then ""
    else if |fields| == 1 then fields[0]
    else fields[0] + "|" + Join(fields[1..])
  }

  ghost predicate PipeFree(fields: seq<string>) {
    forall i :: 0 <= i < |fields| ==> '|' !in fields[i]
  }

  /** How many pipes a text holds. */
  function Pipes(s: string): nat {
    if s == [] then 0 else (if s[0] == '|' then 1 else 0) + Pipes(s[1..])
  }

  /** How many pipes each field holds. */
  function PipesPer(fields: seq<string>): seq<nat> {
    seq(|fields|, i requires 0 <= i < |fields| => Pipes(fields[i]))
  }

  function Sum(ns: seq<nat>): nat {
    if ns == [] then 0 else ns[0] + Sum(ns[1..])
  }

  lemma {:induction false} PipesZero(s: string)
    ensures Pipes(s) == 0 <==> '|' !in s
  {
    if s != [] {
      PipesZero(s[1..]);
      assert s == [s[0]] + s[1..];
    }
  }

  lemma {:induction false} PipesAppend(a: string, b: string)
    ensures Pipes(a + b) == Pipes(a) + Pipes(b)
  {
    if a == [] {
      assert a + b == b;
    } else {
      PipesAppend(a[1..], b);
      assert (a + b)[1..] == a[1..] + b && (a + b)[0] == a[0];
    }
  }

  lemma {:induction false} SumZero(ns: seq<nat>)
    ensures Sum(ns) == 0 <==> forall i :: 0 <= i < |ns| ==> ns[i] == 0
  {
    if ns != [] {
      SumZero(ns[1..]);
      assert forall i :: 0 < i < |ns| ==> ns[i] == ns[1..][i - 1];
    }
  }

  lemma {:induction false} SumOfOne(ns: seq<nat>, k: nat)
    requires k < |ns| && forall i :: 0 <= i < |ns| && i != k ==> ns[i] == 0
    ensures Sum(ns) == ns[k]
  {
    if k == 0 {
      SumZero(ns[1..]);
    } else {
      SumOfOne(ns[1..], k - 1);
    }
  }

  lemma PipesPerRest(fields: seq<string>)
    requires fields != []
    ensures PipesPer(fields)[1..] == PipesPer(fields[1..])
  {
  }

  /** A joined text holds the pipes of its fields and one between any two of them. */
  lemma {:induction false} JoinPipes(fields: seq<string>)
    requires fields != []
    ensures Pipes(Join(fields)) == |fields| - 1 + Sum(PipesPer(fields))
  {
    PipesPerRest(fields);
    if |fields| > 1 {
      JoinPipes(fields[1..]);
      PipesAppend(fields[0] + "|", Join(fields[1..]));
      PipesAppend(fields[0], "|");
      assert Pipes("|") == 1;
    } else {
      assert Sum(PipesPer(fields)[1..]) == 0;
    }
  }

  lemma PipeFreeIffZero(fields: seq<string>)
    ensures PipeFree(fields) <==> Sum(PipesPer(fields)) == 0
  {
    SumZero(PipesPer(fields));
    forall i | 0 <= i < |fields| ensures PipesPer(fields)[i] == 0 <==> '|' !in fields[i] {
      PipesZero(fields[i]);
    }
  }

  /** Where a text is cut at a pipe is determined by how many pipes come before the cut. */
  lemma {:induction false} SplitAtPipe(a: string, x: string, b: string, y: string)
    requires Pipes(a) == Pipes(b) && a + "|" + x == b + "|" + y
    ensures a == b && x == y
  {
    if |a| < |b| {
      CutEarlier(a, x, b, y);
    } else if |b| < |a| {
      CutEarlier(b, y, a, x);
    }
    var s, t := a + "|" + x, b + "|" + y;
    assert a == s[..|a|] && b == t[..|b|];
    assert x == s[|a| + 1..] && y == t[|b| + 1..];
  }

  lemma {:induction false} CutEarlier(a: string, x: string, b: string, y: string)
    requires |a| < |b| && a + "|" + x == b + "|" + y
    ensures Pipes(a) < Pipes(b)
  {
    var s := a + "|" + x;
    assert s[..|a|] == a && s[|a|] == '|';
    assert (b + "|" + y)[..|b|] == b;
    PrefixPipes(s, |a|, |b|);
  }

  lemma {:induction false} PrefixPipes(s: string, i: nat, j: nat)
    requires i < j <= |s| && s[i] == '|'
    ensures Pipes(s[..i]) < Pipes(s[..j])
  {
    assert s[..j] == s[..i] + s[i..j];
    PipesAppend(s[..i], s[i..j]);
  }

  /** The text after the last pipe is determined by the whole text. */
  lemma SplitLastPipe(x: string, a: string, y: string, b: string)
    requires '|' !in a && '|' !in b && x + "|" + a == y + "|" + b
    ensures a == b && x == y
  {
    PipesAppend(x + "|", a);
    PipesAppend(y + "|", b);
    PipesAppend(x, "|");
    PipesAppend(y, "|");
    PipesZero(a);
    PipesZero(b);
    SplitAtPipe(x, a, y, b);
  }

  /** Joined texts whose fields hold as many pipes each are equal only field by field. */
  lemma {:induction false} JoinBinds(fs: seq<string>, gs: seq<string>)
    requires PipesPer(fs) == PipesPer(gs) && Join(fs) == Join(gs)
    ensures fs == gs
  {
    assert |fs| == |PipesPer(fs)| == |gs|;
    if |fs| == 1 {
      assert fs == [fs[0]] && gs == [gs[0]];
    } else if |fs| > 1 {
      PipesPerRest(fs);
      PipesPerRest(gs);
      assert Pipes(fs[0]) == PipesPer(fs)[0] == Pipes(gs[0]);
      SplitAtPipe(fs[0], Join(fs[1..]), gs[0], Join(gs[1..]));
      JoinBinds(fs[1..], gs[1..]);
      assert fs == [fs[0]] + fs[1..] && gs == [gs[0]] + gs[1..];
    }
  }

  /** If one side is free of pipes nothing need be known of the other: it has no pipe to spare. */
  lemma JoinBindsPipeFree(fs: seq<string>, gs: seq<string>)
    requires |fs| == |gs| && PipeFree(fs) && Join(fs) == Join(gs)
    ensures fs == gs
  {
    if fs != [] {
      JoinPipes(fs);
      JoinPipes(gs);
      PipeFreeIffZero(fs);
      PipeFreeIffZero(gs);
      SumZero(PipesPer(fs));
      SumZero(PipesPer(gs));
      assert PipesPer(fs) == PipesPer(gs);
      JoinBinds(fs, gs);
    }
  }

  lemma {:induction false} JoinAppend(fs: seq<string>, gs: seq<string>)
    requires fs != [] && gs != []
    ensures Join(fs + gs) == Join(fs) + "|" + Join(gs)
  {
    if |fs| == 1 {
      assert (fs + gs)[1..] == gs;
    } else {
      JoinAppend(fs[1..], gs);
      assert (fs + gs)[1..] == fs[1..] + gs;
      assert Join(fs + gs) == fs[0] + "|" + (Join(fs[1..]) + "|" + Join(gs));
      assert Join(fs) == fs[0] + "|" + Join(fs[1..]);
      assert fs[0] + "|" + (Join(fs[1..]) + "|" + Join(gs)) == (fs[0] + "|" + Join(fs[1..])) + "|" + Join(gs);
    }
  }

  /** A pipe inside a field may just as well stand for the boundary to the next one. */
  lemma JoinShifts(pre: seq<string>, a: string, b: string, c: string, post: seq<string>)
    ensures Join(pre + [a + "|" + b, c] + post) == Join(pre + [a, b + "|" + c] + post)
  {
    assert Join([a + "|" + b, c]) == Join([a, b + "|" + c]) by {
      assert [a + "|" + b, c][1..] == [c] && [a, b + "|" + c][1..] == [b + "|" + c];
      assert (a + "|" + b) + "|" + c == a + "|" + (b + "|" + c);
    }
    JoinContext(pre, [a + "|" + b, c], [a, b + "|" + c], post);
  }

  lemma JoinContext(pre: seq<string>, fs: seq<string>, gs: seq<string>, post: seq<string>)
    requires fs != [] && gs != [] && Join(fs) == Join(gs)
    ensures Join(pre + fs + post) == Join(pre + gs + post)
  {
    if pre == [] {
      assert pre + fs == fs && pre + gs == gs;
    } else {
      JoinAppend(pre, fs);
      JoinAppend(pre, gs);
    }
    if post == [] {
      assert pre + fs + post == pre + fs && pre + gs + post == pre + gs;
    } else {
      JoinAppend(pre + fs, post);
      JoinAppend(pre + gs, post);
    }
  }

  /** A list of two or more fields with a pipe in one of them has a different one of the same length
      that joins to the same text. */
  lemma OtherReading(fs: seq<string>) returns (gs: seq<string>)
    requires |fs| >= 2 && !PipeFree(fs)
    ensures |gs| == |fs| && gs != fs && Join(gs) == Join(fs)
  {
    var i :| 0 <= i < |fs| && '|' in fs[i];
    var k :| 0 <= k < |fs[i]| && fs[i][k] == '|';
    var a, b := fs[i][..k], fs[i][k + 1..];
    assert fs[i] == a + "|" + b;
    if i + 1 < |fs| {
      var pre, c, post := fs[..i], fs[i + 1], fs[i + 2..];
      gs := pre + [a, b + "|" + c] + post;
      JoinShifts(pre, a, b, c, post);
      assert fs == pre + [a + "|" + b, c] + post;
      assert gs[i] == a;
    } else {
      var pre, c := fs[..i - 1], fs[i - 1];
      gs := pre + [c + "|" + a, b] + [];
      JoinShifts(pre, c, a, b, []);
      assert fs == pre + [c, a + "|" + b] + [];
      assert gs[i] == b;
    }
  }

  // ---------------------------------------------------------------- whitespace

  /** The characters Python's str.strip removes. */
  predicate IsSpace(c: char) {
    var n := c as int;
    || 9 <= n <= 13 || 28 <= n <= 32 || n == 0x85 || n == 0xA0 || n == 0x1680
    || 0x2000 <= n <= 0x200A || n == 0x2028 || n == 0x2029 || n == 0x202F
    || n == 0x205F || n == 0x3000
  }

  const SPACES := "\t\n\U{0B}\U{0C}\r\U{1C}\U{1D}\U{1E}\U{1F} \U{85}\U{A0}\U{1680}"
                  + "\U{2000}\U{2001}\U{2002}\U{2003}\U{2004}\U{2005}\U{2006}\U{2007}\U{2008}\U{2009}\U{200A}"
                  + "\U{2028}\U{2029}\U{202F}\U{205F}\U{3000}"

  lemma SpacesAre(c: char)
    ensures IsSpace(c) <==> c in SPACES
  {
  }

  function StripLeft(s: string): string {
    if s != [] && IsSpace(s[0]) then StripLeft(s[1..]) else s
  }

  function StripRight(s: string): string {
    if s != [] && IsSpace(s[|s| - 1]) then StripRight(s[..|s| - 1]) else s
  }

  function Strip(s: string): string {
    StripRight(StripLeft(s))
  }

  ghost predicate AllSpace(s: string) {
    forall i :: 0 <= i < |s| ==> IsSpace(s[i])
  }

  lemma {:induction false} StripLeftCuts(s: string) returns (a: string)
    ensures s == a + StripLeft(s) && AllSpace(a)
    ensures StripLeft(s) != [] ==> !IsSpace(StripLeft(s)[0])
  {
    if s != [] && IsSpace(s[0]) {
      var rest := StripLeftCuts(s[1..]);
      a := [s[0]] + rest;
      Regroup([s[0]], rest, StripLeft(s));
      assert s == [s[0]] + s[1..];
    } else {
      a := [];
    }
  }

  lemma {:induction false} StripRightCuts(s: string) returns (b: string)
    ensures s == StripRight(s) + b && AllSpace(b)
    ensures StripRight(s) != [] ==> !IsSpace(StripRight(s)[|StripRight(s)| - 1])
  {
    if s != [] && IsSpace(s[|s| - 1]) {
      var rest := StripRightCuts(s[..|s| - 1]);
      b := rest + [s[|s| - 1]];
      Regroup(StripRight(s), rest, [s[|s| - 1]]);
      assert s == s[..|s| - 1] + [s[|s| - 1]];
    } else {
      b := [];
    }
  }

  /** Stripping takes white space off both ends and leaves none there. */
  lemma StripTrims(s: string) returns (a: string, b: string)
    ensures s == a + Strip(s) + b && AllSpace(a) && AllSpace(b)
    ensures Strip(s) != [] ==> !IsSpace(Strip(s)[0]) && !IsSpace(Strip(s)[|Strip(s)| - 1])
  {
    a := StripLeftCuts(s);
    b := StripRightCuts(StripLeft(s));
    Regroup(a, Strip(s), b);
    if Strip(s) != [] {
      assert StripLeft(s)[0] == Strip(s)[0];
    }
  }
}
