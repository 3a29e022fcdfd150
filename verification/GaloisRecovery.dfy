/** algorithm/raid6_pq/algorithm.c for any number of disks: the tables of the field with 16 elements,
    and the encode, lose and recover loops with the product that the live code uses, which adds
    logarithms with exclusive or. */
module GaloisRecovery {

  // ----- Symbols

  /** An int from 0 to 15, by its binary digits. */
  datatype Symbol = Symbol(b3: bool, b2: bool, b1: bool, b0: bool)

  const ZERO := Symbol(false, false, false, false)

  function Value(s: Symbol): (n: nat)
    ensures n < 16
  {
    (if s.b3 then 8 else 0) + (if s.b2 then 4 else 0) + (if s.b1 then 2 else 0) + if s.b0 then 1 else 0
  }

  function Of(n: nat): Symbol
    requires n < 16
  {
    var n2 := if n >= 8 then n - 8 else n;
    var n1 := if n2 >= 4 then n2 - 4 else n2;
    var n0 := if n1 >= 2 then n1 - 2 else n1;
    Symbol(n >= 8, n2 >= 4, n1 >= 2, n0 == 1)
  }

  lemma ValueOf(n: nat, s: Symbol)
    requires n < 16
    ensures Value(Of(n)) == n && Of(Value(s)) == s
  {}

  /** Exclusive or. */
  function Plus(a: Symbol, b: Symbol): Symbol {
    Symbol(a.b3 != b.b3, a.b2 != b.b2, a.b1 != b.b1, a.b0 != b.b0)
  }

  lemma PlusLaws(a: Symbol, b: Symbol, c: Symbol)
    ensures Plus(Plus(a, b), c) == Plus(a, Plus(b, c)) && Plus(a, b) == Plus(b, a)
    ensures Plus(Plus(a, b), b) == a && Plus(a, ZERO) == a
  {}

  // ----- The tables

  /** One turn of generate_Galois_table: doubling, and if that reaches 16, exclusive or with 19, of
      which the digit 16 cancels. */
  function Double(x: Symbol): Symbol {
    var y := Symbol(x.b2, x.b1, x.b0, false);
    if x.b3 then Plus(y, Of(19 - 16)) else y
  }

  /** The powers of 2 in the field. */
  function Power(i: nat): Symbol {
    if i == 0 then Of(1) else Double(Power(i - 1))
  }

  function AlogNumber(i: nat): (x: nat)
    ensures x < 16
    ensures i < 15 ==> x > 0
  {
    if i == 0 then 1 else if i == 1 then 2 else if i == 2 then 4 else if i == 3 then 8
    else if i == 4 then 3 else if i == 5 then 6 else if i == 6 then 12 else if i == 7 then 11
    else if i == 8 then 5 else if i == 9 then 10 else if i == 10 then 7 else if i == 11 then 14
    else if i == 12 then 15 else if i == 13 then 13 else if i == 14 then 9 else 0
  }

  function LogNumber(x: nat): (i: nat)
    ensures i < 15
  {
    if x == 2 then 1 else if x == 4 then 2 else if x == 8 then 3 else if x == 3 then 4
    else if x == 6 then 5 else if x == 12 then 6 else if x == 11 then 7 else if x == 5 then 8
    else if x == 10 then 9 else if x == 7 then 10 else if x == 14 then 11 else if x == 15 then 12
    else if x == 13 then 13 else if x == 9 then 14 else 0
  }

  function Alog(i: nat): Symbol { Of(AlogNumber(i)) }
  function Log(x: Symbol): Symbol { Of(LogNumber(Value(x))) }

  /** On the nonzero symbols and the exponents below 15 the two tables are inverse to each other. */
  lemma Inverses(x: Symbol, i: nat)
    requires x != ZERO && i < 15
    ensures Value(Log(x)) < 15 && Alog(Value(Log(x))) == x
    ensures Alog(i) != ZERO && Log(Alog(i)) == Of(i)
  {
    NumbersInverse(Value(x), i);
    ValueOf(LogNumber(Value(x)), x);
    ValueOf(AlogNumber(i), x);
  }

  lemma NumbersInverse(x: nat, i: nat)
    requires 0 < x < 16 && i < 15
    ensures AlogNumber(LogNumber(x)) == x && LogNumber(AlogNumber(i)) == i
  {}

  lemma AlogDoubles(i: nat)
    requires 0 < i < 15
    ensures Alog(i) == Double(Alog(i - 1))
  {}

  /** The table holds the powers of 2. */
  lemma {:induction false} AlogIsPower(i: nat)
    requires i < 15
    ensures Alog(i) == Power(i)
  {
    if i > 0 {
      AlogIsPower(i - 1);
      AlogDoubles(i);
    }
  }

  /** What the two tables hold; alog[15] is never written. */
  ghost predicate Tables(log: array<Symbol>, alog: array<Symbol>)
    reads log, alog
  {
    log.Length == alog.Length == 16 && forall j :: 0 <= j < 16 ==> alog[j] == Alog(j) && log[j] == Of(LogNumber(j))
  }

  method NextPower(before: Symbol, ghost i: nat) returns (data: Symbol)
    requires 0 < i < 15 && before == Alog(i - 1)
    ensures data == Alog(i) && 0 < Value(data) && Value(data) == AlogNumber(i) && LogNumber(Value(data)) == i
    ensures forall x :: 0 < x < 16 && LogNumber(x) == i ==> x == Value(data)
  {
    AlogDoubles(i);
    NumbersInverse(1, i);
    ValueOf(AlogNumber(i), ZERO);
    data := Double(before);
    forall x | 0 < x < 16 && LogNumber(x) == i ensures x == Value(data) {
      NumbersInverse(x, i);
    }
  }

  /** Entry j of both tables before turn i of the loop. */
  ghost predicate EntryAt(log: array<Symbol>, alog: array<Symbol>, i: nat, j: nat)
    requires log.Length == alog.Length == 16 && j < 16
    reads log, alog
  {
    && alog[j] == (if j < i then Alog(j) else ZERO)
    && log[j] == (if LogNumber(j) < i then Of(LogNumber(j)) else ZERO)
  }

  ghost predicate Filled(log: array<Symbol>, alog: array<Symbol>, i: nat)
    reads log, alog
  {
    log.Length == alog.Length == 16 && forall j :: 0 <= j < 16 ==> EntryAt(log, alog, i, j)
  }

  /** One turn of the loop. */
  method FillEntry(log: array<Symbol>, alog: array<Symbol>, i: nat)
    requires log != alog && 0 < i < 15 && Filled(log, alog, i)
    modifies log, alog
    ensures Filled(log, alog, i + 1)
  {
    ghost var next := i + 1;
    assert EntryAt(log, alog, i, i - 1);
    var data := NextPower(alog[i - 1], i);
    alog[i] := data;
    log[Value(data)] := Of(i);
    forall j | 0 <= j < 16 ensures EntryAt(log, alog, next, j) {
      assert old(EntryAt(log, alog, i, j));
    }
  }

  /** generate_Galois_table on the two zeroed tables. */
  method GenerateGaloisTable(log: array<Symbol>, alog: array<Symbol>)
    requires log != alog && log.Length == alog.Length == 16
    requires forall j :: 0 <= j < 16 ==> log[j] == alog[j] == ZERO
    modifies log, alog
    ensures Tables(log, alog)
  {
    alog[0] := Of(1);
    var i := 1;
    while i < 15
      invariant 1 <= i <= 15
      invariant Filled(log, alog, i)
    {
      FillEntry(log, alog, i);
      i := i + 1;
    }
    forall j | 0 <= j < 16 ensures alog[j] == Alog(j) && log[j] == Of(LogNumber(j)) {
      assert EntryAt(log, alog, 15, j);
    }
  }

  // ----- Product and quotient of the live code

  /** Galois_mutipile. */
  function Multiply(a: Symbol, b: Symbol): Symbol {
    Alog(Value(Plus(Log(a), Log(b))) % 15)
  }

  /** Galois_division. */
  function Divide(a: Symbol, b: Symbol): Symbol {
    Alog((Value(Plus(Log(a), Log(b))) + 15) % 15)
  }

  lemma Wraps(x: nat)
    ensures (x + 15) % 15 == x % 15
    ensures x < 16 ==> x % 15 == if x == 15 then 0 else x
  {}

  function MultiplyIn(log: array<Symbol>, alog: array<Symbol>, a: Symbol, b: Symbol): (c: Symbol)
    requires Tables(log, alog)
    reads log, alog
    ensures c == Multiply(a, b)
  {
    var x := Value(Plus(log[Value(a)], log[Value(b)]));
    Wraps(x);
    alog[x % 15]
  }

  function DivideIn(log: array<Symbol>, alog: array<Symbol>, a: Symbol, b: Symbol): (c: Symbol)
    requires Tables(log, alog)
    reads log, alog
    ensures c == Divide(a, b)
  {
    var x := Value(Plus(log[Value(a)], log[Value(b)]));
    Wraps(x);
    alog[(x + 15) % 15]
  }

  /** Quotient and product are the same function. */
  lemma DivideIsMultiply(a: Symbol, b: Symbol)
    ensures Divide(a, b) == Multiply(a, b)
  {
    Wraps(Value(Plus(Log(a), Log(b))));
  }

  /** Division undoes multiplication exactly for a nonzero symbol whose logarithm is not the
      complement of the other one. */
  lemma DivideUndoes(d: Symbol, k: Symbol)
    ensures Divide(Multiply(d, k), k) == d <==> d != ZERO && Plus(Log(d), Log(k)) != Of(15)
  {
    TableCases(d, k);
    if Plus(Log(d), Log(k)) == Of(15) {
      QuotientOfComplement(d, k);
    } else {
      QuotientOfOther(d, k, Plus(Log(d), Log(k)));
    }
  }

  lemma LogOfProduct(d: Symbol, k: Symbol, x: Symbol)
    requires x == Plus(Log(d), Log(k))
    ensures Log(Multiply(d, k)) == if Value(x) == 15 then ZERO else x
  {
    Wraps(Value(x));
    Inverses(Of(1), Value(x) % 15);
    ValueOf(0, x);
  }

  lemma QuotientBy(a: Symbol, k: Symbol, y: Symbol)
    requires y == Plus(Log(a), Log(k)) && Value(y) < 15
    ensures Divide(a, k) == Alog(Value(y))
  {
    Wraps(Value(y));
  }

  lemma QuotientOfComplement(d: Symbol, k: Symbol)
    requires Plus(Log(d), Log(k)) == Of(15)
    ensures Divide(Multiply(d, k), k) == Alog(Value(Log(k)))
    ensures Log(d) != Log(k)
  {
    ValueOf(15, ZERO);
    LogOfProduct(d, k, Of(15));
    LogBelow(k);
    PlusLaws(Log(k), ZERO, ZERO);
    PlusLaws(ZERO, Log(k), ZERO);
    QuotientBy(Multiply(d, k), k, Log(k));
    NotItself(Log(d), Log(k));
  }

  lemma NotItself(a: Symbol, b: Symbol)
    requires Plus(a, b) == Of(15)
    ensures a != b
  {}

  lemma QuotientOfOther(d: Symbol, k: Symbol, x: Symbol)
    requires x == Plus(Log(d), Log(k)) && x != Of(15)
    ensures Divide(Multiply(d, k), k) == Alog(Value(Log(d)))
  {
    ValueOf(15, x);
    LogOfProduct(d, k, x);
    LogBelow(d);
    PlusLaws(Log(d), Log(k), x);
    QuotientBy(Multiply(d, k), k, Log(d));
  }

  lemma LogBelow(x: Symbol)
    ensures Value(Log(x)) < 15 && Value(Log(x)) % 15 == Value(Log(x))
  {
    ValueOf(LogNumber(Value(x)), x);
    Wraps(Value(Log(x)));
  }

  lemma TableCases(d: Symbol, k: Symbol)
    ensures Alog(Value(Log(d))) == d <==> d != ZERO
    ensures Log(d) != Log(k) ==> Alog(Value(Log(k))) != d
  {
    LogBelow(d);
    LogBelow(k);
    if d != ZERO {
      Inverses(d, Value(Log(k)));
    } else {
      Inverses(Of(1), Value(Log(k)));
      Inverses(Of(1), Value(Log(d)));
    }
    ValueOf(0, Log(k));
  }

  // ----- The product of the field

  /** The product by shifting and adding. */
  function Times(a: Symbol, b: Symbol): Symbol {
    var twice := Double(a);
    var fourfold := Double(twice);
    Plus(Plus(if b.b0 then a else ZERO, if b.b1 then twice else ZERO),
         Plus(if b.b2 then fourfold else ZERO, if b.b3 then Double(fourfold) else ZERO))
  }

  lemma DoubleOfSum(a: Symbol, b: Symbol)
    ensures Double(Plus(a, b)) == Plus(Double(a), Double(b)) && Double(ZERO) == ZERO
  {}

  /** 16 is 3 in the field. */
  lemma Sixteenfold(a: Symbol)
    ensures Double(Double(Double(Double(a)))) == Plus(Double(a), a)
  {}

  lemma DoubleDigits(b: Symbol)
    ensures Double(b) == Symbol(b.b2, b.b1, b.b0 != b.b3, b.b3)
  {}

  /** The terms of a product with the digits of the second factor. */
  lemma Regrouped(a: Symbol, b: Symbol, x2: Symbol, x4: Symbol, x8: Symbol)
    ensures Plus(Plus(if b.b3 then a else ZERO, if b.b0 != b.b3 then x2 else ZERO),
                 Plus(if b.b1 then x4 else ZERO, if b.b2 then x8 else ZERO)) ==
            Plus(Plus(if b.b0 then x2 else ZERO, if b.b1 then x4 else ZERO),
                 Plus(if b.b2 then x8 else ZERO, if b.b3 then Plus(x2, a) else ZERO))
  {}

  lemma TimesDouble(a: Symbol, b: Symbol)
    ensures Times(a, Double(b)) == Double(Times(a, b))
  {
    var x2 := Double(a);
    var x4 := Double(x2);
    var x8 := Double(x4);
    DoubleDigits(b);
    Sixteenfold(a);
    Regrouped(a, b, x2, x4, x8);
    var t0, t1 := if b.b0 then a else ZERO, if b.b1 then x2 else ZERO;
    var t2, t3 := if b.b2 then x4 else ZERO, if b.b3 then x8 else ZERO;
    DoubleOfSum(t0, t1);
    DoubleOfSum(t2, t3);
    DoubleOfSum(Plus(t0, t1), Plus(t2, t3));
  }

  lemma TimesBounds(a: Symbol)
    ensures Times(a, Of(1)) == a && Times(a, ZERO) == ZERO && Times(ZERO, a) == ZERO
  {}

  /** Powers are multiplied by adding their exponents. */
  lemma {:induction false} TimesPowers(i: nat, j: nat)
    ensures Times(Power(i), Power(j)) == Power(i + j)
  {
    if j == 0 {
      TimesBounds(Power(i));
    } else {
      TimesPowers(i, j - 1);
      TimesDouble(Power(i), Power(j - 1));
    }
  }

  lemma DoubleLast()
    ensures Double(Alog(14)) == Of(1)
  {}

  /** The exponents may be taken modulo 15. */
  lemma {:induction false} PowersRepeat(i: nat)
    ensures Power(i + 15) == Power(i)
  {
    if i == 0 {
      AlogIsPower(14);
      DoubleLast();
    } else {
      PowersRepeat(i - 1);
    }
  }

  /** The digits that two symbols share. */
  function Common(a: Symbol, b: Symbol): Symbol {
    Symbol(a.b3 && b.b3, a.b2 && b.b2, a.b1 && b.b1, a.b0 && b.b0)
  }

  lemma SumByDigits(a: Symbol, b: Symbol)
    ensures Value(a) + Value(b) == Value(Plus(a, b)) + 2 * Value(Common(a, b))
    ensures Value(Common(a, b)) <= Value(a) && (Value(Common(a, b)) == 0 <==> Common(a, b) == ZERO)
  {}

  lemma SameModulo15(x: nat, v: nat)
    requires v < 15
    ensures (x + 2 * v) % 15 == x % 15 <==> v == 0
  {}

  /** The product of the live code is that of the field exactly for two nonzero symbols whose logarithms
      share no binary digit: exclusive or is then addition. */
  lemma ProductExactly(a: Symbol, b: Symbol)
    ensures Multiply(a, b) == Times(a, b) <==> a != ZERO && b != ZERO && Common(Log(a), Log(b)) == ZERO
  {
    if a == ZERO || b == ZERO {
      TimesBounds(a);
      TimesBounds(b);
      Inverses(Of(1), Value(Plus(Log(a), Log(b))) % 15);
    } else {
      TimesByLogs(a, b);
      LogBelow(a);
      LogBelow(b);
      DigitsModulo15(Log(a), Log(b));
      AlogApart(Value(Plus(Log(a), Log(b))) % 15, (Value(Log(a)) + Value(Log(b))) % 15);
    }
  }

  lemma TimesByLogs(a: Symbol, b: Symbol)
    requires a != ZERO && b != ZERO
    ensures Times(a, b) == Alog((Value(Log(a)) + Value(Log(b))) % 15)
  {
    PowerOfLog(a);
    PowerOfLog(b);
    TimesAt(a, b, Value(Log(a)), Value(Log(b)));
    AlogIsPower((Value(Log(a)) + Value(Log(b))) % 15);
  }

  lemma PowerOfLog(a: Symbol)
    requires a != ZERO
    ensures Value(Log(a)) < 15 && a == Power(Value(Log(a)))
  {
    Inverses(a, 0);
    AlogIsPower(Value(Log(a)));
  }

  lemma TimesAt(a: Symbol, b: Symbol, x: nat, y: nat)
    requires x < 15 && y < 15 && a == Power(x) && b == Power(y)
    ensures Times(a, b) == Power((x + y) % 15)
  {
    TimesPowers(x, y);
    PowerWraps(x + y);
  }

  lemma DigitsModulo15(a: Symbol, b: Symbol)
    requires Value(a) < 15
    ensures Value(Plus(a, b)) % 15 == (Value(a) + Value(b)) % 15 <==> Common(a, b) == ZERO
  {
    SumByDigits(a, b);
    SameModulo15(Value(Plus(a, b)), Value(Common(a, b)));
  }

  lemma PowerWraps(k: nat)
    requires k < 30
    ensures Power(k) == Power(k % 15)
  {
    if k >= 15 {
      PowersRepeat(k - 15);
      assert k % 15 == k - 15;
    }
  }

  lemma AlogApart(i: nat, j: nat)
    requires i < 15 && j < 15
    ensures Alog(i) == Alog(j) <==> i == j
  {
    NumbersInverse(1, i);
    NumbersInverse(1, j);
    ValueOf(AlogNumber(i), ZERO);
    ValueOf(AlogNumber(j), ZERO);
  }

  // ----- Encoding and recovery

  /** P after the first n disks. */
  function ParityOf(d: seq<Symbol>, n: nat): Symbol
    requires n <= |d|
  {
    if n == 0 then ZERO else Plus(ParityOf(d, n - 1), d[n - 1])
  }

  /** The sum of the first n terms, without term skip. */
  function Total(m: seq<Symbol>, n: nat, skip: nat): Symbol
    requires n <= |m|
  {
    if n == 0 then ZERO
    else if n - 1 == skip then Total(m, n - 1, skip)
    else Plus(Total(m, n - 1, skip), m[n - 1])
  }

  /** The terms of Q. */
  function Terms(d: seq<Symbol>, k: seq<Symbol>): (m: seq<Symbol>)
    requires |d| == |k|
    ensures |m| == |d|
  {
    seq(|d|, i requires 0 <= i < |d| => Multiply(d[i], k[i]))
  }

  lemma {:induction false} TotalIgnores(m: seq<Symbol>, l: seq<Symbol>, n: nat, t: nat)
    requires n <= |m| == |l| && forall i :: 0 <= i < |m| && i != t ==> m[i] == l[i]
    ensures Total(m, n, t) == Total(l, n, t)
  {
    if n > 0 {
      TotalIgnores(m, l, n - 1, t);
    }
  }

  /** The sum is the sum without term t, and that term. */
  lemma {:induction false} TotalSplits(m: seq<Symbol>, n: nat, t: nat)
    requires n <= |m| && t < |m|
    ensures Total(m, n, |m|) == if t < n then Plus(Total(m, n, t), m[t]) else Total(m, n, t)
  {
    if n > 0 {
      TotalSplits(m, n - 1, t);
    }
  }

  /** The symbol that the recovery loop leaves on disk t. */
  function Recovered(d: seq<Symbol>, k: seq<Symbol>, t: nat, q: Symbol): Symbol
    requires t < |d| == |k|
  {
    Divide(Plus(Total(Terms(d, k), |d|, t), q), k[t])
  }

  /** Whatever stands on disk t after the loss, recovery from Q returns the lost symbol if and only if
      it is nonzero and its logarithm is not the complement of its coefficient's. */
  lemma RecoversExactly(d: seq<Symbol>, k: seq<Symbol>, t: nat, lost: seq<Symbol>)
    requires t < |d| == |k| == |lost| && forall i :: 0 <= i < |d| && i != t ==> lost[i] == d[i]
    ensures Recovered(lost, k, t, Total(Terms(d, k), |d|, |d|)) == d[t]
       <==> d[t] != ZERO && Plus(Log(d[t]), Log(k[t])) != Of(15)
  {
    var m, l := Terms(d, k), Terms(lost, k);
    LostTerm(m, l, t);
    DivideUndoes(d[t], k[t]);
  }

  lemma LostTerm(m: seq<Symbol>, l: seq<Symbol>, t: nat)
    requires t < |m| == |l| && forall i :: 0 <= i < |m| && i != t ==> m[i] == l[i]
    ensures Plus(Total(l, |m|, t), Total(m, |m|, |m|)) == m[t]
  {
    TotalIgnores(m, l, |m|, t);
    TotalSplits(m, |m|, t);
  }

  /** With the coefficient 0 of the program, exactly the nonzero symbols are recovered. */
  lemma ZeroCoefficient(d: seq<Symbol>, k: seq<Symbol>, t: nat, lost: seq<Symbol>)
    requires t < |d| == |k| == |lost| && k[t] == ZERO
    requires forall i :: 0 <= i < |d| && i != t ==> lost[i] == d[i]
    ensures Recovered(lost, k, t, Total(Terms(d, k), |d|, |d|)) == d[t] <==> d[t] != ZERO
  {
    RecoversExactly(d, k, t, lost);
    NeverComplement(d[t]);
  }

  lemma NeverComplement(x: Symbol)
    ensures Plus(Log(x), Log(ZERO)) != Of(15)
  {
    LogBelow(x);
    ValueOf(15, x);
    ValueOf(0, x);
    PlusLaws(Log(x), ZERO, x);
  }

  /** Two arrays that differ at most on disk t have the same parity exactly when they agree there. */
  lemma {:induction false} ParityTells(d: seq<Symbol>, e: seq<Symbol>, n: nat, t: nat)
    requires n <= |d| == |e| && t < |d| && forall i :: 0 <= i < |d| && i != t ==> d[i] == e[i]
    ensures ParityOf(d, n) == ParityOf(e, n) <==> t >= n || d[t] == e[t]
  {
    if n > 0 {
      ParityTells(d, e, n - 1, t);
    }
  }

  /** P is the sum of all disks: with the others it gives the symbol of any one disk. */
  lemma ParityGives(d: seq<Symbol>, n: nat, t: nat)
    requires n <= |d| && t < |d|
    ensures Plus(ParityOf(d, n), Total(d, n, t)) == if t < n then d[t] else ZERO
  {
    ParityIsTotal(d, n);
    TotalSplits(d, n, t);
  }

  lemma {:induction false} ParityIsTotal(d: seq<Symbol>, n: nat)
    requires n <= |d|
    ensures ParityOf(d, n) == Total(d, n, |d|)
  {
    if n > 0 {
      ParityIsTotal(d, n - 1);
    }
  }

  // ----- The loops of main

  /** m[i] is the term of disk i. */
  ghost predicate TermAt(d: seq<Symbol>, k: seq<Symbol>, m: seq<Symbol>, i: nat)
    requires i < |d| == |k| == |m|
  {
    m[i] == Multiply(d[i], k[i])
  }

  ghost predicate TermsOf(d: seq<Symbol>, k: seq<Symbol>, m: seq<Symbol>) {
    |d| == |k| == |m| && forall i :: 0 <= i < |d| ==> TermAt(d, k, m, i)
  }

  lemma MakeTerms(d: seq<Symbol>, k: seq<Symbol>) returns (m: seq<Symbol>)
    requires |d| == |k|
    ensures TermsOf(d, k, m)
  {
    m := Terms(d, k);
  }

  lemma AreTerms(d: seq<Symbol>, k: seq<Symbol>, m: seq<Symbol>)
    requires TermsOf(d, k, m)
    ensures m == Terms(d, k)
  {
    forall i | 0 <= i < |m| ensures m[i] == Terms(d, k)[i] {
      assert TermAt(d, k, m, i);
    }
  }

  /** acc ^= Galois_mutipile(D[i], K[i]). */
  method AddTerm(log: array<Symbol>, alog: array<Symbol>, acc: Symbol, x: Symbol, y: Symbol,
                 ghost d: seq<Symbol>, ghost k: seq<Symbol>, ghost m: seq<Symbol>, ghost i: nat) returns (r: Symbol)
    requires Tables(log, alog) && TermsOf(d, k, m) && i < |d| && x == d[i] && y == k[i]
    ensures r == Plus(acc, m[i])
  {
    assert TermAt(d, k, m, i);
    r := Plus(acc, MultiplyIn(log, alog, x, y));
  }

  /** The encoding loop: P and Q. */
  method Encode(d: array<Symbol>, k: array<Symbol>, log: array<Symbol>, alog: array<Symbol>)
    returns (p: Symbol, q: Symbol)
    requires Tables(log, alog) && d.Length == k.Length
    ensures p == ParityOf(d[..], d.Length) && q == Total(Terms(d[..], k[..]), d.Length, d.Length)
  {
    p, q := ZERO, ZERO;
    var i := 0;
    ghost var ds, ks := d[..], k[..];
    ghost var m := MakeTerms(ds, ks);
    while i < d.Length
      invariant 0 <= i <= d.Length
      invariant p == ParityOf(ds, i) && q == Total(m, i, d.Length)
    {
      p := Plus(p, d[i]);
      q := AddTerm(log, alog, q, d[i], k[i], ds, ks, m, i);
      i := i + 1;
    }
    AreTerms(ds, ks, m);
  }

  /** The loss of disk t and its recovery from q; the result is P computed again. */
  method LoseAndRecover(d: array<Symbol>, k: array<Symbol>, log: array<Symbol>, alog: array<Symbol>, t: nat, q: Symbol)
    returns (p: Symbol)
    requires Tables(log, alog) && t < d.Length == k.Length && d != k && d != log && d != alog
    modifies d
    ensures d[..] == old(d[..])[t := Recovered(old(d[..]), k[..], t, q)]
    ensures p == ParityOf(d[..], d.Length)
  {
    ghost var first, ks := d[..], k[..];
    ghost var m := MakeTerms(first, ks);
    XorOthers(d, k, log, alog, t, first, ks, m);
    AreTerms(first, ks, m);
    assert k[..] == ks && k[t] == ks[t];
    var x := Quotient(log, alog, d[t], q, k[t]);
    d[t] := x;
    assert d[..] == first[t := x];
    p := Parity(d);
  }

  /** The recovery loop. */
  method XorOthers(d: array<Symbol>, k: array<Symbol>, log: array<Symbol>, alog: array<Symbol>, t: nat,
                   ghost first: seq<Symbol>, ghost ks: seq<Symbol>, ghost m: seq<Symbol>)
    requires Tables(log, alog) && t < d.Length == k.Length && d != k && d != log && d != alog
    requires first == d[..] && ks == k[..] && TermsOf(first, ks, m)
    modifies d
    ensures d[t] == Total(m, d.Length, t)
    ensures forall j :: 0 <= j < d.Length && j != t ==> d[j] == first[j]
  {
    d[t] := ZERO;
    var i := 0;
    while i < d.Length
      invariant 0 <= i <= d.Length
      invariant d[t] == Total(m, i, t)
      invariant forall j :: 0 <= j < d.Length && j != t ==> d[j] == first[j]
    {
      if i != t {
        d[t] := AddTerm(log, alog, d[t], d[i], k[i], first, ks, m, i);
      }
      i := i + 1;
    }
  }

  /** The two statements after the recovery loop. */
  method Quotient(log: array<Symbol>, alog: array<Symbol>, rest: Symbol, q: Symbol, k: Symbol) returns (r: Symbol)
    requires Tables(log, alog)
    ensures r == Divide(Plus(rest, q), k)
  {
    r := Plus(rest, q);
    r := DivideIn(log, alog, r, k);
  }

  /** The last loop of main. */
  method Parity(d: array<Symbol>) returns (p: Symbol)
    ensures p == ParityOf(d[..], d.Length)
  {
    p := ZERO;
    var i := 0;
    while i < d.Length
      invariant 0 <= i <= d.Length && p == ParityOf(d[..], i)
    {
      p := Plus(p, d[i]);
      i := i + 1;
    }
  }

  /** Encoding, losing and recovering any disk of any array: the symbols come back, and P is the P of
      before, exactly when the lost symbol is nonzero and the logarithms are not complementary. */
  method RoundTrip(d: array<Symbol>, k: array<Symbol>, log: array<Symbol>, alog: array<Symbol>, t: nat)
    returns (before: Symbol, after: Symbol)
    requires Tables(log, alog) && t < d.Length == k.Length && d != k && d != log && d != alog
    modifies d
    ensures var sound := old(d[t]) != ZERO && Plus(Log(old(d[t])), Log(k[t])) != Of(15);
            (d[..] == old(d[..]) <==> sound) && (before == after <==> sound)
  {
    var q;
    before, q := Encode(d, k, log, alog);
    ghost var first := d[..];
    after := LoseAndRecover(d, k, log, alog, t, q);
    RecoversExactly(first, k[..], t, first);
    ParityTells(first, d[..], d.Length, t);
    assert first[t := first[t]] == first;
  }
}
