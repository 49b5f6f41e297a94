/**
 * Add SEL Entry logs a record as text, `KEY=value` by `KEY=value`; Get SEL Entry rebuilds it from that text.
 */
module SelText {
  import opened Bytes
  import opened SelRecord

  // -------- numbers as text --------

  const DIGITS := "0123456789ABCDEF"

  /** What `std::from_chars` makes of a character in the given base. */
  function DigitValue(c: char, base: nat): (r: Option<nat>) {
    var d := if '0' <= c <= '9' then c as int - '0' as int
             else if 'A' <= c <= 'F' then c as int - 'A' as int + 10
             else if 'a' <= c <= 'f' then c as int - 'a' as int + 10
             else base;
    if d < base then Some(d) else None
  }

  /** `%u`. */
  function Decimal(n: nat): (r: string) {
    if n < 10 then [DIGITS[n]] else Decimal(n / 10) + [DIGITS[n % 10]]
  }

  function HexByte(b: byte): (r: string) { [DIGITS[b / 16], DIGITS[b % 16]] }

  function HexStr(data: seq<byte>): (r: string) {
    if data == [] then "" else HexStr(data[..|data| - 1]) + HexByte(data[|data| - 1])
  }

  /** One digit more. */
  function Shifted(acc: nat, base: nat, digit: nat): (r: nat) { acc * base + digit }

  /** The value of the digits that `s` starts with, continuing from `acc`. */
  function Digits(acc: nat, s: string, base: nat): (r: nat)
    decreases |s|
  {
    if s == "" || DigitValue(s[0], base) == None then acc
    else Digits(Shifted(acc, base, DigitValue(s[0], base).value), s[1..], base)
  }

  const INT_MAX := 0x7FFF_FFFF

  /** `convert`: no value when there is no digit or the number does not fit an `int`. */
  function Converted(s: string, base: nat): (r: Option<int>) {
    if s != "" && s[0] == '-' then
      if |s| > 1 && DigitValue(s[1], base).Some? && Digits(0, s[1..], base) <= INT_MAX + 1
      then Some(0 - Digits(0, s[1..], base) as int) else None
    else if s != "" && DigitValue(s[0], base).Some? && Digits(0, s, base) <= INT_MAX
    then Some(Digits(0, s, base)) else None
  }

  lemma DigitReadsBack(d: nat)
    requires d < 16
    ensures DigitValue(DIGITS[d], 16) == Some(d)
    ensures d < 10 ==> DigitValue(DIGITS[d], 10) == Some(d)
    ensures DIGITS[d] != '-' && DIGITS[d] != '='
  {}

  predicate AllDigits(s: string, base: nat) {
    forall i | 0 <= i < |s| :: DigitValue(s[i], base).Some?
  }

  lemma {:induction false} OneMoreDigit(acc: nat, s: string, c: char, base: nat)
    requires AllDigits(s, base) && DigitValue(c, base).Some?
    ensures Digits(acc, s + [c], base) == Shifted(Digits(acc, s, base), base, DigitValue(c, base).value)
    decreases |s|
  {
    if s == "" {
      assert s + [c] == [c] && [c][1..] == "";
    } else {
      assert (s + [c])[1..] == s[1..] + [c];
      OneMoreDigit(Shifted(acc, base, DigitValue(s[0], base).value), s[1..], c, base);
    }
  }

  lemma {:induction false} DecimalIsDigits(n: nat)
    ensures |Decimal(n)| > 0 && AllDigits(Decimal(n), 10) && Digits(0, Decimal(n), 10) == n
    ensures Decimal(n)[0] != '-'
  {
    if n < 10 {
      DigitReadsBack(n);
      assert [DIGITS[n]][1..] == "";
    } else {
      DecimalIsDigits(n / 10);
      DigitReadsBack(n % 10);
      OneMoreDigit(0, Decimal(n / 10), DIGITS[n % 10], 10);
    }
  }

  /** Decimal printing and parsing are inverses for every number that fits an `int`. */
  lemma DecimalReadsBack(n: nat)
    ensures Converted(Decimal(n), 10) == if n <= INT_MAX then Some(n) else None
  {
    DecimalIsDigits(n);
  }

  lemma {:induction false} DigitsThenRest(acc: nat, s: string, rest: string, base: nat)
    requires AllDigits(s, base) && (rest == "" || DigitValue(rest[0], base) == None)
    ensures Digits(acc, s + rest, base) == Digits(acc, s, base)
    decreases |s|
  {
    if s == "" {
      assert s + rest == rest;
    } else {
      assert (s + rest)[1..] == s[1..] + rest;
      DigitsThenRest(Shifted(acc, base, DigitValue(s[0], base).value), s[1..], rest, base);
    }
  }

  /** A number is read up to the first character that is no digit, with its sign, if it fits thirty-two bits. */
  lemma NumberInText(n: nat, rest: string)
    requires rest == "" || !('0' <= rest[0] <= '9')
    ensures Converted(Decimal(n) + rest, 10) == if n <= 0x7FFF_FFFF then Some(n) else None
    ensures Converted("-" + Decimal(n) + rest, 10) == if n <= 0x8000_0000 then Some(-(n as int)) else None
    ensures Converted(rest, 10) == None || (rest != "" && rest[0] == '-')
  {
    DecimalIsDigits(n);
    DigitsThenRest(0, Decimal(n), rest, 10);
    var t := "-" + Decimal(n) + rest;
    assert t[1..] == Decimal(n) + rest;
  }

  lemma HexByteReadsBack(b: byte)
    ensures Converted(HexByte(b), 16) == Some(b as int)
  {
    DigitReadsBack(b / 16);
    DigitReadsBack(b % 16);
    var s := HexByte(b);
    assert s[1..] == [DIGITS[b % 16]] && s[1..][1..] == "";
    assert Digits(b / 16, s[1..], 16) == Digits(b / 16 * 16 + b % 16, "", 16) == b;
    assert Digits(0, s, 16) == Digits(0 * 16 + b / 16, s[1..], 16);
  }

  lemma {:induction false} HexLength(data: seq<byte>)
    ensures |HexStr(data)| == 2 * |data|
  {
    if data != [] { HexLength(data[..|data| - 1]); }
  }

  lemma {:induction false} HexStrPairs(data: seq<byte>, i: nat)
    requires i < |data|
    ensures |HexStr(data)| == 2 * |data| && HexStr(data)[2 * i..2 * i + 2] == HexByte(data[i])
  {
    var init := data[..|data| - 1];
    var text := HexStr(init);
    HexLength(init);
    HexLength(data);
    assert HexStr(data) == text + HexByte(data[|data| - 1]);
    if i < |init| {
      HexStrPairs(init, i);
      assert HexStr(data)[2 * i..2 * i + 2] == text[2 * i..2 * i + 2];
    }
  }

  /** `toHexStr`. */
  method ToHexStr(data: seq<byte>) returns (s: string)
    ensures s == HexStr(data)
  {
    s := "";
    for i := 0 to |data|
      invariant s == HexStr(data[..i])
    {
      assert data[..i + 1][..i] == data[..i];
      s := s + [DIGITS[data[i] / 16]] + [DIGITS[data[i] % 16]];
    }
    assert data[..|data|] == data;
  }

  /** The digits from `start` on, and how many there are. */
  method ScanDigits(s: string, start: nat, base: nat) returns (count: nat, value: nat)
    requires start <= |s|
    ensures value == Digits(0, s[start..], base)
    ensures count > 0 <==> start < |s| && DigitValue(s[start], base).Some?
  {
    var i := start;
    value := 0;
    while i < |s| && DigitValue(s[i], base).Some?
      invariant start <= i <= |s|
      invariant Digits(value, s[i..], base) == Digits(0, s[start..], base)
      invariant i > start ==> DigitValue(s[start], base).Some?
    {
      assert s[i..][0] == s[i] && s[i..][1..] == s[i + 1..];
      value := Shifted(value, base, DigitValue(s[i], base).value);
      i := i + 1;
    }
    count := i - start;
  }

  method Convert(s: string, base: nat) returns (r: Option<int>)
    ensures r == Converted(s, base)
  {
    var negative := s != "" && s[0] == '-';
    var count, value := ScanDigits(s, if negative then 1 else 0, base);
    assert s[0..] == s;
    if count == 0 || value > (if negative then INT_MAX + 1 else INT_MAX) {
      return None;
    }
    return Some(if negative then 0 - value as int else value);
  }

  function PairValue(s: string, i: nat): (r: Option<int>)
    requires 2 * i + 2 <= |s|
  {
    Converted(s[2 * i..2 * i + 2], 16)
  }

  /** The first `n` two-character pieces as bytes; None as soon as one of them has no value. */
  function HexPairs(s: string, n: nat): (r: Option<seq<byte>>)
    requires 2 * n <= |s|
  {
    if n == 0 then Some([])
    else
      var before := HexPairs(s, n - 1);
      var v := PairValue(s, n - 1);
      if before.Some? && v.Some? then Some(before.value + [v.value % 0x100]) else None
  }

  function FromHex(s: string): (r: Option<seq<byte>>) { HexPairs(s, |s| / 2) }

  lemma PairReads(data: seq<byte>, i: nat)
    requires i < |data|
    ensures 2 * i + 2 <= |HexStr(data)| && PairValue(HexStr(data), i) == Some(data[i] as int)
  {
    HexStrPairs(data, i);
    HexByteReadsBack(data[i]);
  }

  lemma {:induction false} HexPairsReadBack(data: seq<byte>, text: string, n: nat)
    requires n <= |data| && |text| == 2 * |data|
    requires forall i | 0 <= i < |data| :: PairValue(text, i) == Some(data[i] as int)
    ensures HexPairs(text, n) == Some(data[..n])
  {
    if n > 0 {
      HexPairsReadBack(data, text, n - 1);
      assert PairValue(text, n - 1) == Some(data[n - 1] as int);
      assert data[..n] == data[..n - 1] + [data[n - 1]];
    }
  }

  /** Hexadecimal printing and parsing are inverses for byte strings of every length. */
  lemma HexReadsBack(data: seq<byte>)
    ensures FromHex(HexStr(data)) == Some(data)
  {
    HexLength(data);
    forall i | 0 <= i < |data| ensures PairValue(HexStr(data), i) == Some(data[i] as int) { PairReads(data, i); }
    HexPairsReadBack(data, HexStr(data), |data|);
    assert data[..|data|] == data;
  }

  lemma TwoDigitsRead(s: string, high: nat, low: nat)
    requires |s| == 2 && DigitValue(s[0], 16) == Some(high) && DigitValue(s[1], 16) == Some(low)
    ensures Converted(s, 16) == Some(16 * high + low)
  {
    assert s[1..][1..] == "";
    assert Digits(high, s[1..], 16) == Digits(high * 16 + low, "", 16);
    assert Digits(0, s, 16) == Digits(0 * 16 + high, s[1..], 16);
  }

  /** Hexadecimal digits are read in either case. */
  lemma EitherCaseReads(data: seq<byte>, s: string)
    requires |s| == 2 * |data|
    requires forall i | 0 <= i < |data| ::
               DigitValue(s[2 * i], 16) == Some(data[i] / 16) && DigitValue(s[2 * i + 1], 16) == Some(data[i] % 16)
    ensures FromHex(s) == Some(data)
    ensures forall k: nat | k < 6 ::
              DigitValue(['a', 'b', 'c', 'd', 'e', 'f'][k], 16) == DigitValue(['A', 'B', 'C', 'D', 'E', 'F'][k], 16)
                                                                == Some(10 + k)
  {
    forall i | 0 <= i < |data| ensures PairValue(s, i) == Some(data[i] as int) {
      TwoDigitsRead(s[2 * i..2 * i + 2], data[i] / 16, data[i] % 16);
    }
    HexPairsReadBack(data, s, |data|);
    assert data[..|data|] == data;
  }

  /** `convertVec`. */
  method ConvertVec(s: string) returns (r: Option<seq<byte>>)
    ensures r == FromHex(s)
  {
    r := Some([]);
    for i := 0 to |s| / 2
      invariant r == HexPairs(s, i)
    {
      var v := Convert(s[2 * i..2 * i + 2], 16);
      r := if r.Some? && v.Some? then Some(r.value + [v.value % 0x100]) else None;
    }
  }

  // -------- KEY=value --------

  function Find(s: string, c: char): (r: nat)
    ensures Find(s, c) <= |s|
  {
    if s == "" || s[0] == c then 0 else 1 + Find(s[1..], c)
  }

  /** `parseEntry` splits at the first equals sign; it asserts that there is one. */
  function ParseEntry(entry: string): (r: Option<(string, string)>) {
    var pos := Find(entry, '=');
    if pos == |entry| then None else Some((entry[..pos], entry[pos + 1..]))
  }

  /** `parseAdditionalData`: `insert` keeps the first value of a key. */
  function ParseAdditional(data: seq<string>): (r: Option<map<string, string>>) {
    if data == [] then Some(map[])
    else
      var before := ParseAdditional(data[..|data| - 1]);
      var e := ParseEntry(data[|data| - 1]);
      if before.Some? && e.Some? then
        Some(if e.value.0 in before.value then before.value else before.value[e.value.0 := e.value.1])
      else None
  }

  method ParseAdditionalData(data: seq<string>) returns (m: Option<map<string, string>>)
    ensures m == ParseAdditional(data)
  {
    m := Some(map[]);
    for i := 0 to |data|
      invariant m == ParseAdditional(data[..i])
    {
      assert data[..i + 1][..i] == data[..i];
      var e := ParseEntry(data[i]);
      if m.Some? && e.Some? {
        if e.value.0 !in m.value {
          m := Some(m.value[e.value.0 := e.value.1]);
        }
      } else {
        m := None;
      }
    }
    assert data[..|data|] == data;
  }

  function Pair(key: string, value: string): (r: string) { key + "=" + value }

  lemma {:induction false} FindInPair(key: string, value: string)
    requires '=' !in key
    ensures Find(Pair(key, value), '=') == |key|
    decreases |key|
  {
    if key != "" {
      assert Pair(key, value)[1..] == Pair(key[1..], value);
      assert forall c | c in key[1..] :: c in key;
      FindInPair(key[1..], value);
    }
  }

  /** Splitting undoes joining, whatever the value contains. */
  lemma PairReadsBack(key: string, value: string)
    requires '=' !in key
    ensures ParseEntry(Pair(key, value)) == Some((key, value))
  {
    FindInPair(key, value);
    assert Pair(key, value)[..|key|] == key && Pair(key, value)[|key| + 1..] == value;
  }

  // -------- all pairs of a text --------

  predicate HasKey(entry: string, key: string) { key + "=" <= entry }

  lemma {:induction false} FindsFirst(s: string, c: char)
    ensures Find(s, c) == |s| <==> c !in s
    ensures Find(s, c) < |s| ==> s[Find(s, c)] == c
    ensures c !in s[..Find(s, c)]
  {
    if s != "" && s[0] != c {
      FindsFirst(s[1..], c);
      assert s[..Find(s, c)] == [s[0]] + s[1..][..Find(s[1..], c)];
      assert c in s[1..] <==> c in s;
    }
  }

  /** An entry is split at its first equals sign, so it has the key that stands before that one. */
  lemma EntrySplits(entry: string, key: string)
    requires '=' !in key
    ensures ParseEntry(entry) == None <==> '=' !in entry
    ensures ParseEntry(entry).Some? && ParseEntry(entry).value.0 == key <==> HasKey(entry, key)
    ensures HasKey(entry, key) ==> ParseEntry(entry) == Some((key, entry[|key| + 1..]))
  {
    FindsFirst(entry, '=');
    if HasKey(entry, key) {
      var value := entry[|key| + 1..];
      assert entry == Pair(key, value);
      PairReadsBack(key, value);
    }
    if ParseEntry(entry).Some? && ParseEntry(entry).value.0 == key {
      assert entry[..|key| + 1] == key + "=";
    }
  }

  predicate FirstWithKey(data: seq<string>, key: string, i: nat) {
    i < |data| && HasKey(data[i], key) && forall j | 0 <= j < i :: !HasKey(data[j], key)
  }

  /** A text is parsed exactly if every entry has an equals sign; it then has the keys of its entries, each with the
      value of the first entry that has it. */
  lemma {:induction false} ParseAdditionalExactly(data: seq<string>, key: string)
    requires '=' !in key
    ensures ParseAdditional(data) == None <==> exists i | 0 <= i < |data| :: '=' !in data[i]
    ensures ParseAdditional(data).Some? ==>
              (key in ParseAdditional(data).value <==> exists i | 0 <= i < |data| :: HasKey(data[i], key))
    ensures ParseAdditional(data).Some? ==>
              forall i: nat | FirstWithKey(data, key, i) ::
                key in ParseAdditional(data).value && ParseAdditional(data).value[key] == data[i][|key| + 1..]
  {
    if data != [] {
      var n := |data| - 1;
      ParseAdditionalExactly(data[..n], key);
      EntrySplits(data[n], key);
      forall i: nat | i < n && FirstWithKey(data, key, i) ensures FirstWithKey(data[..n], key, i) {}
    }
  }
}
