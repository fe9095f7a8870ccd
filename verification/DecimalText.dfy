/**
  Writing an unsigned number as decimal digits from the back of a buffer, two at a
  time, and reading a number back without letting it overflow.
 */
module DecimalText {
  import opened Words
  import opened Powers
  import opened Decimal
  import opened DigitCount
  import opened FormatParse
  import opened FormatSpecs

  // ------------------------------------------------------------------ writing

  lemma TwoMore(n: nat)
    requires n >= 100
    ensures NumDigits(n) == 2 + NumDigits(n / 100)
  {
    assert n / 10 / 10 == n / 100;
    assert NumDigits(n / 10) == 1 + NumDigits(n / 10 / 10);
  }

  /** value is what is left to write in front of the digits in text. */
  ghost predicate Remaining(whole: nat, value: nat, text: seq<char>)
  {
    && AllDigits(text) && whole == value * Pow(10, |text|) + DigitsVal(text)
    && NumDigits(whole) == NumDigits(value) + |text|
  }

  lemma PairVal(v: nat)
    requires v < 100
    ensures DigitsVal([DigitChar(v / 10), DigitChar(v % 10)]) == v
  {
    DigitsSnoc([], DigitChar(v / 10));
    DigitsSnoc([DigitChar(v / 10)], DigitChar(v % 10));
    assert [] + [DigitChar(v / 10)] == [DigitChar(v / 10)];
    assert [DigitChar(v / 10)] + [DigitChar(v % 10)] == [DigitChar(v / 10), DigitChar(v % 10)];
  }

  lemma Hundreds(value: nat)
    ensures value == 100 * (value / 100) + value % 100 && value % 100 % 10 == value % 10
  {
    var q, r := value / 100, value % 100;
    DivModUnique(value, 10, 10 * q + r / 10, r % 10);
  }

  /** Two digits in front. */
  lemma WritePair(whole: nat, value: nat, text: seq<char>)
    requires value >= 100 && Remaining(whole, value, text)
    ensures Remaining(whole, value / 100, [DigitChar(value % 100 / 10), DigitChar(value % 10)] + text)
  {
    var pair := [DigitChar(value % 100 / 10), DigitChar(value % 10)];
    Hundreds(value);
    PairVal(value % 100);
    TwoMore(value);
    PairInFront(value / 100, value % 100, pair, text);
  }

  lemma PairInFront(high: nat, low: nat, pair: seq<char>, text: seq<char>)
    requires |pair| == 2 && DigitsVal(pair) == low
    ensures high * Pow(10, |pair + text|) + DigitsVal(pair + text)
         == (100 * high + low) * Pow(10, |text|) + DigitsVal(text)
  {
    DigitsConcat(pair, text);
    HundredMore(high, low, Pow(10, |text|));
    assert Pow(10, |text| + 2) == 10 * Pow(10, |text| + 1);
  }

  lemma HundredMore(high: nat, low: nat, p: nat)
    ensures (100 * high + low) * p == high * (10 * (10 * p)) + low * p
  {
    MulDistribute(100 * high, low, p);
    MulAssociate(high, 100, p);
  }

  /** The last one or two digits in front: the text spells the number, and nothing is left over. */
  lemma WriteLast(whole: nat, value: nat, text: seq<char>, first: seq<char>)
    requires Remaining(whole, value, text) && AllDigits(first) && DigitsVal(first) == value
    requires |first| == NumDigits(value)
    ensures Spelled(whole, first + text)
  {
    DigitsConcat(first, text);
    NoLeadingZero(whole, first + text);
  }

  /** The decimal notation of n: as many digits as it takes, and no leading zero. */
  ghost predicate Spelled(n: nat, text: seq<char>)
  {
    AllDigits(text) && DigitsVal(text) == n && |text| == NumDigits(n) && (n > 0 ==> text[0] != '0')
  }

  lemma NoLeadingZero(n: nat, text: seq<char>)
    requires AllDigits(text) && DigitsVal(text) == n && |text| == NumDigits(n)
    ensures n > 0 ==> text[0] != '0'
  {
    assert text == [text[0]] + text[1..];
    DigitsConcat([text[0]], text[1..]);
    DigitsSnoc([], text[0]);
    assert [] + [text[0]] == [text[0]];
    DigitsBound(text[1..]);
    NumDigitsBounds(n);
  }

  /** Writes the digits of a number so that they end at position size of the buffer. */
  method FormatDecimal(buffer: array<char>, number: nat, size: nat) returns (begin: nat)
    requires NumDigits(number) <= size <= buffer.Length
    modifies buffer
    ensures begin + NumDigits(number) == size && Spelled(number, buffer[begin..size])
    ensures buffer[..begin] == old(buffer[..begin]) && buffer[size..] == old(buffer[size..])
  {
    var value;
    value, begin := FormatPairs(buffer, number, size);
    ghost var text := buffer[begin..size];
    if value < 10 {
      OneVal(value);
      WriteLast(number, value, text, [DigitChar(value)]);
      Prepend(buffer, begin, size, [DigitChar(value)]);
      begin := begin - 1;
    } else {
      DigitCount.FewDigits(value);
      PairVal(value);
      WriteLast(number, value, text, [DigitChar(value / 10), DigitChar(value % 10)]);
      Prepend(buffer, begin, size, [DigitChar(value / 10), DigitChar(value % 10)]);
      begin := begin - 2;
    }
  }

  lemma OneVal(v: nat)
    requires v < 10
    ensures DigitsVal([DigitChar(v)]) == v
  {
    DigitsSnoc([], DigitChar(v));
    assert [] + [DigitChar(v)] == [DigitChar(v)];
  }

  /** The digits in pairs, down to the last one or two. */
  method FormatPairs(buffer: array<char>, number: nat, size: nat) returns (value: nat, begin: nat)
    requires NumDigits(number) <= size <= buffer.Length
    modifies buffer
    ensures value < 100 && NumDigits(value) <= begin <= size && Remaining(number, value, buffer[begin..size])
    ensures buffer[..begin] == old(buffer[..begin]) && buffer[size..] == old(buffer[size..])
  {
    value, begin := number, size;
    assert Pow(10, 0) == 1 && buffer[begin..size] == [];
    while value >= 100
      invariant NumDigits(value) <= begin <= size && Remaining(number, value, buffer[begin..size])
      invariant buffer[..begin] == old(buffer[..begin]) && buffer[size..] == old(buffer[size..])
    {
      begin := FormatPair(buffer, number, value, begin, size);
      value := value / 100;
    }
  }

  /** The last two digits of value, in front of those already written. */
  method FormatPair(buffer: array<char>, ghost number: nat, value: nat, begin: nat, ghost size: nat)
    returns (next: nat)
    requires value >= 100 && NumDigits(value) <= begin <= size <= buffer.Length
    requires Remaining(number, value, buffer[begin..size])
    modifies buffer
    ensures begin == next + 2 && NumDigits(value / 100) <= next && Remaining(number, value / 100, buffer[next..size])
    ensures buffer[..next] == old(buffer[..next]) && buffer[size..] == old(buffer[size..])
  {
    WritePair(number, value, buffer[begin..size]);
    TwoMore(value);
    Prepend(buffer, begin, size, [DigitChar(value % 100 / 10), DigitChar(value % 10)]);
    next := begin - 2;
  }

  /** Puts one or two characters right before position begin. */
  method Prepend(buffer: array<char>, begin: nat, ghost size: nat, chars: seq<char>)
    requires |chars| <= 2 && |chars| <= begin <= size <= buffer.Length
    modifies buffer
    ensures buffer[begin - |chars|..size] == chars + old(buffer[begin..size])
    ensures buffer[..begin - |chars|] == old(buffer[..begin - |chars|]) && buffer[size..] == old(buffer[size..])
  {
    forall k | 0 <= k < |chars| {
      buffer[begin - |chars| + k] := chars[k];
    }
  }

  // ------------------------------------------------------------------ reading

  lemma {:induction false} DigitsGrow(s: string, k: nat)
    requires AllDigits(s) && k < |s|
    ensures DigitsVal(s) >= 10 * DigitsVal(s[..k])
  {
    DigitsBound(s[..k]);
    if k + 1 < |s| {
      assert s[..|s| - 1][..k] == s[..k];
      DigitsGrow(s[..|s| - 1], k);
    }
  }

  lemma DigitRunIs(s: string, n: nat)
    requires n <= |s| && AllDigits(s[..n]) && (n < |s| ==> !IsDigit(s[n]))
    ensures DigitRun(s) == n
  {
    var m := DigitRun(s);
    forall k | 0 <= k < m
      ensures IsDigit(s[k])
    {
      assert IsDigit(s[..m][k]);
    }
    forall k | 0 <= k < n
      ensures IsDigit(s[k])
    {
      assert IsDigit(s[..n][k]);
    }
  }

  /** Reads the digits at the start of s; 32 bits are enough because it stops before they overflow. */
  method ParseNonNegativeInt(s: string) returns (r: Result<(nat, nat)>)
    requires s != [] && IsDigit(s[0])
    ensures r == NonNegativeInt(s)
  {
    var value: u32, begin := 0, 0;
    var big := INT_MAX / 10;
    var first := true;
    ghost var run := DigitRun(s);
    while first || (begin != |s| && IsDigit(s[begin]))
      invariant first ==> begin == 0
      invariant 0 <= begin <= run && value == DigitsVal(s[..begin])
      decreases |s| - begin, first
    {
      first := false;
      assert begin < run by {
        assert begin < |s| && IsDigit(s[begin]);
      }
      if value > big {
        DigitsGrow(s[..run], begin);
        assert s[..run][..begin] == s[..begin];
        return Err(NumberTooBig);
      }
      assert s[..begin + 1][..begin] == s[..begin];
      assert IsDigit(s[..run][begin]);
      value := value * 10 + DigitOf(s[begin]);
      begin := begin + 1;
    }
    assert begin == run;
    return if value > INT_MAX then Err(NumberTooBig) else Ok((value, begin));
  }

  /** What was written is read back, up to the largest int; a longer number is an error. */
  lemma ReadsBack(n: nat, text: string, rest: string)
    requires Spelled(n, text) && (rest == [] || !IsDigit(rest[0]))
    ensures NonNegativeInt(text + rest) == if n <= INT_MAX then Ok((n, |text|)) else Err(NumberTooBig)
  {
    var s := text + rest;
    assert s[..|text|] == text;
    DigitRunIs(s, |text|);
  }
}
