/** The part of Ruby's object model that the deactivation job relies on, over the
    values that JSON.parse produces and that a jsonb credentials column holds:
    truthiness, `[]` with a String key, `to_i`, and Integer addition. Each
    operation that Ruby can raise on yields an explicit `Raise`. */
module RubyValues {

  datatype Option<+T> = None | Some(value: T)

  /** A JSON value as Ruby holds it once parsed (Floats are not modelled). */
  datatype Value =
    | Nil
    | Bool(b: bool)
    | Int(i: int)
    | Str(s: string)
    | Arr(elems: seq<Value>)
    | Hash(fields: map<string, Value>)

  datatype Error = NoMethodError | TypeError

  /** The outcome of evaluating a Ruby expression: a value, or an exception that propagates. */
  datatype Eval<+T> = Ok(value: T) | Raise(error: Error) {
    predicate IsFailure() { Raise? }
    function PropagateFailure<U>(): Eval<U> requires Raise? { Raise(error) }
    function Extract(): T requires Ok? { value }
  }

  /** Everything except nil and false is true in a Ruby condition, "" and 0 included. */
  predicate Truthy(v: Value) {
    v != Nil && v != Bool(false)
  }

  /** Hash#[]: a missing key reads as nil. */
  function Lookup(m: map<string, Value>, key: string): (r: Value)
    ensures key !in m ==> r == Nil
    ensures Truthy(r) ==> key in m && m[key] == r
  {
    if key in m then m[key] else Nil
  }

  /** Whether `sub` occurs in `s` as a contiguous run of characters. */
  predicate Contains(s: string, sub: string)
    decreases |s|
  {
    sub <= s || (|s| > 0 && Contains(s[1..], sub))
  }

  /** `sub` occurs in `s` starting at index `i`. */
  predicate OccursAt(s: string, sub: string, i: int) {
    0 <= i <= |s| - |sub| && s[i..i + |sub|] == sub
  }

  lemma {:induction false} ContainsIff(s: string, sub: string)
    ensures Contains(s, sub) <==> exists i :: OccursAt(s, sub, i)
    decreases |s|
  {
    if sub <= s {
      assert OccursAt(s, sub, 0);
    } else if |s| > 0 {
      ContainsIff(s[1..], sub);
      if Contains(s[1..], sub) {
        var i :| OccursAt(s[1..], sub, i);
        assert s[i + 1..i + 1 + |sub|] == s[1..][i..i + |sub|];
        assert OccursAt(s, sub, i + 1);
      }
      if exists i :: OccursAt(s, sub, i) {
        var i :| OccursAt(s, sub, i);
        assert i != 0;
        assert s[1..][i - 1..i - 1 + |sub|] == s[i..i + |sub|];
        assert OccursAt(s[1..], sub, i - 1);
      }
    } else {
      assert |sub| > 0;
    }
  }

  /** `receiver[key]` with a String key. A Hash looks the key up; a String
      returns a copy of `key` when it occurs in the receiver and nil otherwise;
      nil, true and false have no `[]` (NoMethodError); Integer and Array
      refuse a String index (TypeError). */
  function Index(receiver: Value, key: string): (r: Eval<Value>)
    ensures r.Ok? <==> receiver.Hash? || receiver.Str?
    ensures receiver.Hash? ==> r == Ok(Lookup(receiver.fields, key))
    ensures receiver.Str? && r.Ok? ==> r.value == Nil || r.value == Str(key)
    ensures receiver.Str? ==> (r == Ok(Str(key)) <==> exists i :: OccursAt(receiver.s, key, i))
    ensures receiver.Nil? || receiver.Bool? ==> r == Raise(NoMethodError)
    ensures receiver.Int? || receiver.Arr? ==> r == Raise(TypeError)
  {
    match receiver
    case Hash(m) => Ok(Lookup(m, key))
    case Str(s) =>
      ContainsIff(s, key);
      Ok(if Contains(s, key) then Str(key) else Nil)
    case Nil => Raise(NoMethodError)
    case Bool(_) => Raise(NoMethodError)
    case Int(_) => Raise(TypeError)
    case Arr(_) => Raise(TypeError)
  }

  predicate IsDigit(c: char) {
    '0' <= c <= '9'
  }

  /** The characters Ruby skips before a number: space, \t, \n, \v, \f and \r. */
  predicate IsSpace(c: char) {
    c == ' ' || 9 <= c as int <= 13
  }

  function DigitValue(c: char): (d: nat)
    requires IsDigit(c)
    ensures d < 10
  {
    c as int - '0' as int
  }

  function DigitChar(d: nat): (c: char)
    requires d < 10
    ensures IsDigit(c) && DigitValue(c) == d
  {
    ('0' as int + d) as char
  }

  predicate AllDigits(s: string) {
    forall i :: 0 <= i < |s| ==> IsDigit(s[i])
  }

  function SkipSpace(s: string): (t: string)
    ensures |t| <= |s| && t == s[|s| - |t|..]
    ensures |t| > 0 ==> !IsSpace(t[0])
  {
    if |s| > 0 && IsSpace(s[0]) then SkipSpace(s[1..]) else s
  }

  /** The digits of the longest prefix of `s` made of digits with single
      underscores between them, the underscores dropped. */
  function LeadingDigits(s: string): (d: string)
    ensures AllDigits(d) && |d| <= |s|
  {
    if |s| == 0 || !IsDigit(s[0]) then ""
    else if |s| >= 3 && s[1] == '_' && IsDigit(s[2]) then [s[0]] + LeadingDigits(s[2..])
    else [s[0]] + LeadingDigits(s[1..])
  }

  /** The number a string of decimal digits denotes. */
  function DecimalValue(d: string): (n: nat)
    requires AllDigits(d)
  {
    if d == [] then 0 else DecimalValue(d[..|d| - 1]) * 10 + DigitValue(d[|d| - 1])
  }

  /** String#to_i: leading whitespace, an optional sign, then the leading digits; 0 when there are none. */
  function StrToI(s: string): (n: int)
    ensures (forall i :: 0 <= i < |s| ==> !IsDigit(s[i])) ==> n == 0
  {
    var t := SkipSpace(s);
    if |t| > 0 && t[0] == '-' then -(DecimalValue(LeadingDigits(t[1..])) as int)
    else if |t| > 0 && t[0] == '+' then DecimalValue(LeadingDigits(t[1..]))
    else DecimalValue(LeadingDigits(t))
  }

  /** `v.to_i`: nil.to_i is 0, an Integer is itself, a String is parsed;
      true, false, Array and Hash have no `to_i` (NoMethodError). */
  function ToI(v: Value): (r: Eval<int>)
    ensures r.Ok? <==> v.Nil? || v.Int? || v.Str?
    ensures v.Nil? ==> r == Ok(0)
    ensures v.Int? ==> r == Ok(v.i)
  {
    match v
    case Nil => Ok(0)
    case Int(i) => Ok(i)
    case Str(s) => Ok(StrToI(s))
    case Bool(_) => Raise(NoMethodError)
    case Arr(_) => Raise(NoMethodError)
    case Hash(_) => Raise(NoMethodError)
  }

  /** `n + v` for an Integer n: nil, a String, a boolean, an Array or a Hash
      cannot be coerced into Integer (TypeError). */
  function AddInt(n: int, v: Value): (r: Eval<int>)
    ensures r.Ok? <==> v.Int?
    ensures r.Ok? ==> r.value - n == v.i
  {
    if v.Int? then Ok(n + v.i) else Raise(TypeError)
  }

  /** Integer#to_s for a non-negative Integer. */
  function Decimal(n: nat): (s: string)
    ensures |s| > 0 && AllDigits(s)
  {
    if n < 10 then [DigitChar(n)] else Decimal(n / 10) + [DigitChar(n % 10)]
  }

  /** Integer#to_s. */
  function IntToS(i: int): (s: string)
    ensures |s| > 0
  {
    if i < 0 then "-" + Decimal(-i) else Decimal(i)
  }

  lemma {:induction false} DecimalValueOfDecimal(n: nat)
    ensures DecimalValue(Decimal(n)) == n
  {
    if n >= 10 {
      var s := Decimal(n);
      assert s[..|s| - 1] == Decimal(n / 10);
      DecimalValueOfDecimal(n / 10);
    }
  }

  lemma {:induction false} LeadingDigitsOfDigits(s: string)
    requires AllDigits(s)
    ensures LeadingDigits(s) == s
    decreases |s|
  {
    if |s| > 0 {
      LeadingDigitsOfDigits(s[1..]);
      assert s == [s[0]] + s[1..];
    }
  }

  /** A non-empty run of digits reads as the number it denotes. */
  lemma StrToIOfDigits(d: string)
    requires |d| > 0 && AllDigits(d)
    ensures StrToI(d) == DecimalValue(d)
  {
    assert IsDigit(d[0]);
    assert SkipSpace(d) == d;
    LeadingDigitsOfDigits(d);
  }

  /** A minus sign followed by a non-empty run of digits reads as the negated number. */
  lemma StrToIOfNegatedDigits(d: string)
    requires |d| > 0 && AllDigits(d)
    ensures StrToI(['-'] + d) == -(DecimalValue(d) as int)
  {
    var neg := ['-'] + d;
    assert SkipSpace(neg) == neg;
    assert neg[1..] == d;
    LeadingDigitsOfDigits(d);
  }

  /** `i.to_s.to_i == i`: an expiry written as a decimal String still reads as the same time. */
  lemma ToIOfToS(i: int)
    ensures ToI(Str(IntToS(i))) == Ok(i)
  {
    var s := IntToS(i);
    if i < 0 {
      var m: nat := -i;
      assert s == ['-'] + Decimal(m);
      DecimalValueOfDecimal(m);
      StrToIOfNegatedDigits(Decimal(m));
    } else {
      assert s == Decimal(i);
      DecimalValueOfDecimal(i);
      StrToIOfDigits(Decimal(i));
    }
    assert StrToI(s) == i;
  }
}
