/** random_gen.py: a four-digit binary string built from four draws of `random.choice('01')`,
  * and its value read back with `int(binary_number, 2)`. The draws are a parameter: the
  * model covers every outcome of the random choices.
  */
module RandomBinary {
  import opened Outcomes
  import opened Powers

  /** The number of digits the script draws. */
  const Digits: nat := 4

  predicate IsBinaryDigit(c: char) {
    c == '0' || c == '1'
  }

  predicate IsBinary(s: string) {
    forall i :: 0 <= i < |s| ==> IsBinaryDigit(s[i])
  }

  /** `''.join(random.choice('01') for _ in draws)`: draw `true` picks `'1'`. */
  function Generate(draws: seq<bool>): (s: string)
    ensures |s| == |draws|
    ensures IsBinary(s)
    ensures forall i :: 0 <= i < |s| ==> (s[i] == '1' <==> draws[i])
  {
    if draws == [] then []
    else Generate(draws[..|draws| - 1]) + [if draws[|draws| - 1] then '1' else '0']
  }

  function DigitValue(c: char): nat {
    if c == '1' then 1 else 0
  }

  /** The base-2 value of a string of binary digits, most significant digit first; `n`
    * digits have a value below 2^n.
    */
  function Value(s: string): (v: nat)
    ensures v < Pow2(|s|)
  {
    if s == [] then 0 else 2 * Value(s[..|s| - 1]) + DigitValue(s[|s| - 1])
  }

  /** The value written positionally: the sum of digit i times 2^(|s| - 1 - i). */
  function PositionalValue(s: string): nat {
    if s == [] then 0 else DigitValue(s[0]) * Pow2(|s| - 1) + PositionalValue(s[1..])
  }

  /** Why `int(s, 2)` fails: the string is empty or holds a character other than 0 or 1. */
  datatype ParseError = EmptyString | InvalidDigit(position: nat)

  /** `int(s, 2)` on a string of digits. */
  function ParseBinary(s: string): (r: Result<nat, ParseError>)
    ensures r.Ok? <==> s != [] && IsBinary(s)
    ensures r.Ok? ==> r.value == Value(s)
    ensures r.Err? && s == [] ==> r.error == EmptyString
    ensures r.Err? && s != [] ==>
      && r.error.InvalidDigit?
      && var p := r.error.position; p < |s| && !IsBinaryDigit(s[p]) && IsBinary(s[..p])
  {
    if s == [] then Err(EmptyString) else FirstInvalid(s, 0)
  }

  function FirstInvalid(s: string, from: nat): (r: Result<nat, ParseError>)
    requires from <= |s| && IsBinary(s[..from])
    decreases |s| - from
    ensures r.Ok? <==> IsBinary(s)
    ensures r.Ok? ==> r.value == Value(s)
    ensures r.Err? ==>
      && r.error.InvalidDigit?
      && var p := r.error.position; from <= p < |s| && !IsBinaryDigit(s[p]) && IsBinary(s[..p])
  {
    if from == |s| then
      assert s[..from] == s;
      Ok(Value(s))
    else if !IsBinaryDigit(s[from]) then Err(InvalidDigit(from))
    else
      assert s[..from + 1] == s[..from] + [s[from]];
      FirstInvalid(s, from + 1)
  }

  /** The `width`-digit binary string of `v`, most significant digit first. */
  function ToBinary(v: nat, width: nat): (s: string)
    ensures |s| == width && IsBinary(s)
  {
    if width == 0 then []
    else ToBinary(v / 2, width - 1) + [if v % 2 == 1 then '1' else '0']
  }

  /** Both readings of a binary string agree. */
  lemma {:induction false} ValueIsPositional(s: string)
    ensures Value(s) == PositionalValue(s)
  {
    if s != [] {
      var init := s[..|s| - 1];
      ValueIsPositional(init);
      PositionalAppend(init, s[|s| - 1]);
      assert s == init + [s[|s| - 1]];
    }
  }

  /** Appending a digit doubles the positional value and adds the digit. */
  lemma {:induction false} PositionalAppend(s: string, c: char)
    ensures PositionalValue(s + [c]) == 2 * PositionalValue(s) + DigitValue(c)
  {
    if s != [] {
      var s' := s + [c];
      assert s'[0] == s[0] && s'[1..] == s[1..] + [c];
      PositionalAppend(s[1..], c);
      assert Pow2(|s|) == 2 * Pow2(|s| - 1);
      if s[0] == '1' {
        assert PositionalValue(s') == Pow2(|s|) + PositionalValue(s[1..] + [c]);
      } else {
        assert PositionalValue(s') == PositionalValue(s[1..] + [c]);
      }
    }
  }

  /** Writing a value in binary and reading it back returns the value, when it fits. */
  lemma {:induction false} ValueOfToBinary(v: nat, width: nat)
    requires v < Pow2(width)
    ensures Value(ToBinary(v, width)) == v
  {
    if width > 0 {
      var s := ToBinary(v, width);
      assert s[..|s| - 1] == ToBinary(v / 2, width - 1);
      ValueOfToBinary(v / 2, width - 1);
    }
  }

  /** Reading a binary string and writing its value with as many digits returns the string. */
  lemma {:induction false} ToBinaryOfValue(s: string)
    requires IsBinary(s)
    ensures ToBinary(Value(s), |s|) == s
  {
    if s != [] {
      var init := s[..|s| - 1];
      ToBinaryOfValue(init);
      assert s == init + [s[|s| - 1]];
    }
  }

  /** The script: the drawn string and its decimal value, which lies in [0, 15] and is
    * what the drawn digits spell in binary.
    */
  function RandomBinaryNumber(draws: seq<bool>): (r: (string, nat))
    requires |draws| == Digits
    ensures |r.0| == Digits && IsBinary(r.0)
    ensures forall i :: 0 <= i < Digits ==> (r.0[i] == '1' <==> draws[i])
    ensures ParseBinary(r.0) == Ok(r.1)
    ensures 0 <= r.1 <= 15
    ensures ToBinary(r.1, Digits) == r.0
    ensures r.1 == PositionalValue(r.0)
  {
    var binary := Generate(draws);
    var decimal := ParseBinary(binary).value;
    ToBinaryOfValue(binary);
    ValueIsPositional(binary);
    assert Pow2(Digits) == 16;
    (binary, decimal)
  }
}
