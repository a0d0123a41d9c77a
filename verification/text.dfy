/** Character-level helpers shared by the text validators and formatters: splitting a string
    on a separator character, joining fields back, and the upper-case hexadecimal rendering
    that `fmt::format("{:X}")` and `fmt::format("{:02X}")` produce. */
module Text {

  /** An unsigned 8-bit value (`u8`, `u_char`, `UCHAR`). */
  type byte = x: int | 0 <= x < 256

  predicate IsDigit(c: char) {
    '0' <= c <= '9'
  }

  predicate IsHexDigit(c: char) {
    '0' <= c <= '9' || 'a' <= c <= 'f' || 'A' <= c <= 'F'
  }

  predicate IsAlphaNumeric(c: char) {
    '0' <= c <= '9' || 'a' <= c <= 'z' || 'A' <= c <= 'Z'
  }

  predicate AllDigits(s: string) {
    forall i :: 0 <= i < |s| ==> IsDigit(s[i])
  }

  predicate AllHexDigits(s: string) {
    forall i :: 0 <= i < |s| ==> IsHexDigit(s[i])
  }

  /** No lower-case letter: what `{:X}` and `{:02X}` produce. */
  predicate NoLowerHex(s: string) {
    forall i :: 0 <= i < |s| ==> !('a' <= s[i] <= 'f')
  }

  predicate AllAlphaNumeric(s: string) {
    forall i :: 0 <= i < |s| ==> IsAlphaNumeric(s[i])
  }

  /** Glues fields together with one separator between neighbours. */
  function Join(fields: seq<string>, sep: char): string
    requires |fields| >= 1
    decreases |fields|
  {
    if |fields| == 1 then fields[0] else fields[0] + [sep] + Join(fields[1..], sep)
  }

  /** The maximal separator-free runs of `s`, in order; empty runs between adjacent
      separators (and at either end) are kept, so a string with k separators has k + 1
      fields. */
  function Split(s: string, sep: char): (fields: seq<string>)
    ensures |fields| >= 1
    ensures forall i :: 0 <= i < |fields| ==> sep !in fields[i]
    ensures |fields| == 1 + Count(s, sep)
    decreases |s|
  {
    if |s| == 0 then [""]
    else
      var rest := Split(s[1..], sep);
      if s[0] == sep then [""] + rest
      else [[s[0]] + rest[0]] + rest[1..]
  }

  /** Number of occurrences of `c` in `s`. */
  function Count(s: string, c: char): nat
    decreases |s|
  {
    if |s| == 0 then 0 else (if s[0] == c then 1 else 0) + Count(s[1..], c)
  }

  lemma {:induction false} CountZeroIffAbsent(s: string, c: char)
    ensures Count(s, c) == 0 <==> c !in s
    decreases |s|
  {
    if |s| > 0 {
      CountZeroIffAbsent(s[1..], c);
      assert s == [s[0]] + s[1..];
    }
  }

  /** Splitting loses nothing: joining the fields restores the string. */
  lemma {:induction false} JoinSplit(s: string, sep: char)
    ensures Join(Split(s, sep), sep) == s
    decreases |s|
  {
    if |s| > 0 {
      var rest := Split(s[1..], sep);
      JoinSplit(s[1..], sep);
      if s[0] == sep {
        assert Split(s, sep)[1..] == rest;
      } else {
        var fields := Split(s, sep);
        assert fields[0] == [s[0]] + rest[0];
        if |rest| > 1 {
          assert fields[1..] == rest[1..];
          assert Join(rest, sep) == rest[0] + [sep] + Join(rest[1..], sep);
        }
      }
    }
  }

  /** Joining separator-free fields and splitting again gives back the same fields. */
  lemma {:induction false} SplitJoin(fields: seq<string>, sep: char)
    requires |fields| >= 1
    requires forall i :: 0 <= i < |fields| ==> sep !in fields[i]
    ensures Split(Join(fields, sep), sep) == fields
    decreases |fields|
  {
    if |fields| == 1 {
      SplitNoSeparator(fields[0], sep);
    } else {
      var tail := fields[1..];
      assert forall i :: 0 <= i < |tail| ==> tail[i] == fields[i + 1];
      SplitJoin(tail, sep);
      SplitPrefix(fields[0], Join(tail, sep), sep);
      assert fields == [fields[0]] + tail;
    }
  }

  /** A separator-free field followed by a separator splits off as the first field. */
  lemma {:induction false} SplitPrefix(f: string, t: string, sep: char)
    requires sep !in f
    ensures Split(f + [sep] + t, sep) == [f] + Split(t, sep)
    decreases |f|
  {
    if |f| == 0 {
      assert f + [sep] + t == [sep] + t;
      SplitCons(sep, t, sep);
    } else {
      var c := f[0];
      assert sep !in f[1..];
      assert f + [sep] + t == [c] + (f[1..] + [sep] + t);
      SplitPrefix(f[1..], t, sep);
      SplitCons(c, f[1..] + [sep] + t, sep);
      assert [c] + f[1..] == f;
    }
  }

  lemma {:induction false} SplitNoSeparator(s: string, sep: char)
    requires sep !in s
    ensures Split(s, sep) == [s]
    decreases |s|
  {
    if |s| > 0 {
      assert sep !in s[1..];
      SplitNoSeparator(s[1..], sep);
      assert [s[0]] + s[1..] == s;
    }
  }

  /** Every field of a string lies inside that string: a character absent from the string is
      absent from all of its fields. */
  lemma SplitFieldsWithin(s: string, sep: char, c: char)
    requires c !in s
    ensures forall i :: 0 <= i < |Split(s, sep)| ==> c !in Split(s, sep)[i]
  {
    var fields := Split(s, sep);
    forall i | 0 <= i < |fields| ensures c !in fields[i] {
      JoinSplit(s, sep);
      JoinContainsFields(fields, sep, i);
    }
  }

  lemma {:induction false} JoinContainsFields(fields: seq<string>, sep: char, i: nat)
    requires i < |fields|
    ensures forall c :: c in fields[i] ==> c in Join(fields, sep)
    decreases |fields|
  {
    if |fields| > 1 && i > 0 {
      JoinContainsFields(fields[1..], sep, i - 1);
      assert fields[1..][i - 1] == fields[i];
    }
  }

  /** Splitting a string extended by a separator-free suffix: the suffix lands on the last
      field. */
  lemma {:induction false} SplitAppend(a: string, b: string, sep: char)
    requires sep !in b
    ensures var fa := Split(a, sep);
      Split(a + b, sep) == fa[..|fa| - 1] + [fa[|fa| - 1] + b]
    decreases |a|
  {
    if |a| == 0 {
      assert a + b == b;
      SplitNoSeparator(b, sep);
    } else {
      var c, rest := a[0], a[1..];
      SplitAppend(rest, b, sep);
      assert (a + b)[0] == c && (a + b)[1..] == rest + b;
      SplitUnfold(a, sep);
      SplitUnfold(a + b, sep);
      ConsAppendFields(c, Split(rest, sep), Split(rest + b, sep), b, sep);
    }
  }

  /** One step of `Split` on a non-empty string. */
  lemma SplitUnfold(s: string, sep: char)
    requires |s| > 0
    ensures var rest := Split(s[1..], sep);
      Split(s, sep) == if s[0] == sep then [""] + rest else [[s[0]] + rest[0]] + rest[1..]
  {
  }

  /** One step of `Split`: the first character either starts a new field or joins the first
      field of the rest. */
  lemma SplitCons(c: char, s: string, sep: char)
    ensures Split([c] + s, sep) ==
      if c == sep then [""] + Split(s, sep) else [[c] + Split(s, sep)[0]] + Split(s, sep)[1..]
  {
    assert ([c] + s)[0] == c && ([c] + s)[1..] == s;
  }

  lemma ConsAppendFields(c: char, r: seq<string>, x: seq<string>, b: string, sep: char)
    requires |r| >= 1
    requires x == r[..|r| - 1] + [r[|r| - 1] + b]
    ensures var fa := if c == sep then [""] + r else [[c] + r[0]] + r[1..];
      var fab := if c == sep then [""] + x else [[c] + x[0]] + x[1..];
      fab == fa[..|fa| - 1] + [fa[|fa| - 1] + b]
  {
    if c != sep {
      if |r| > 1 {
        assert x[0] == r[0];
        assert x[1..] == r[1..|r| - 1] + [r[|r| - 1] + b];
      } else {
        assert [c] + x[0] == [c] + r[0] + b;
      }
    }
  }

  /** The value of a decimal numeral, most significant digit first. */
  function ParseDecimal(s: string): nat
    requires AllDigits(s)
    decreases |s|
  {
    if |s| == 0 then 0 else ParseDecimal(s[..|s| - 1]) * 10 + (s[|s| - 1] as int - '0' as int)
  }

  // ---------------------------------------------------------------------------------------
  // Upper-case hexadecimal rendering

  /** The upper-case hexadecimal digit of a value below 16. */
  function HexDigit(n: nat): (c: char)
    requires n < 16
    ensures IsHexDigit(c) && !('a' <= c <= 'f')
  {
    "0123456789ABCDEF"[n]
  }

  /** The value of one hexadecimal digit in either case. */
  function HexValue(c: char): (n: nat)
    requires IsHexDigit(c)
    ensures n < 16
  {
    if '0' <= c <= '9' then c as int - '0' as int
    else if 'a' <= c <= 'f' then c as int - 'a' as int + 10
    else c as int - 'A' as int + 10
  }

  lemma HexValueOfDigit(n: nat)
    requires n < 16
    ensures HexValue(HexDigit(n)) == n
  {
  }

  /** `{:X}`: the shortest upper-case hexadecimal rendering of n (just "0" for zero). */
  function UpperHex(n: nat): (s: string)
    ensures |s| >= 1 && AllHexDigits(s) && NoLowerHex(s)
    ensures |s| > 1 ==> s[0] != '0'
    decreases n
  {
    if n < 16 then [HexDigit(n)] else UpperHex(n / 16) + [HexDigit(n % 16)]
  }

  /** The value of a hexadecimal numeral, most significant digit first. */
  function ParseHex(s: string): nat
    requires AllHexDigits(s)
    decreases |s|
  {
    if |s| == 0 then 0 else ParseHex(s[..|s| - 1]) * 16 + HexValue(s[|s| - 1])
  }

  /** Reading back the rendering of n gives n. */
  lemma {:induction false} ParseUpperHex(n: nat)
    ensures ParseHex(UpperHex(n)) == n
    decreases n
  {
    var s := UpperHex(n);
    if n < 16 {
      HexValueOfDigit(n);
      assert s[..0] == [];
    } else {
      ParseUpperHex(n / 16);
      HexValueOfDigit(n % 16);
      assert s[..|s| - 1] == UpperHex(n / 16);
    }
  }

  /** `{:02X}`: a byte as exactly two upper-case hexadecimal digits. */
  function Hex2(b: byte): (s: string)
    ensures |s| == 2 && AllHexDigits(s) && NoLowerHex(s) && ':' !in s
    ensures ParseHex(s) == b
  {
    var s := [HexDigit(b / 16), HexDigit(b % 16)];
    HexValueOfDigit(b / 16);
    HexValueOfDigit(b % 16);
    assert s[..1][..0] == [];
    assert ParseHex(s[..1]) == b / 16;
    assert ParseHex(s) == (b / 16) * 16 + b % 16;
    s
  }

  /** Upper-case two-digit hexadecimal renderings of the bytes, separated by colons. */
  function HexPairs(bs: seq<byte>): (r: string)
    requires |bs| >= 1
    ensures |r| == 3 * |bs| - 1
    ensures forall i :: 0 <= i < |bs| ==> r[3 * i..3 * i + 2] == Hex2(bs[i])
    ensures forall i :: 0 <= i < |bs| - 1 ==> r[3 * i + 2] == ':'
    ensures NoLowerHex(r)
    decreases |bs|
  {
    if |bs| == 1 then Hex2(bs[0])
    else
      var rest := HexPairs(bs[1..]);
      PairsCons(bs, rest);
      Hex2(bs[0]) + ":" + rest
  }

  /** The fields of `HexPairs(bs)` from those of the pairs of `bs[1..]`. */
  lemma PairsCons(bs: seq<byte>, rest: string)
    requires |bs| >= 2 && |rest| == 3 * (|bs| - 1) - 1
    requires forall i :: 0 <= i < |bs| - 1 ==> rest[3 * i..3 * i + 2] == Hex2(bs[1..][i])
    requires forall i :: 0 <= i < |bs| - 2 ==> rest[3 * i + 2] == ':'
    requires NoLowerHex(rest)
    ensures var r := Hex2(bs[0]) + ":" + rest;
      && |r| == 3 * |bs| - 1
      && (forall i :: 0 <= i < |bs| ==> r[3 * i..3 * i + 2] == Hex2(bs[i]))
      && (forall i :: 0 <= i < |bs| - 1 ==> r[3 * i + 2] == ':')
      && NoLowerHex(r)
  {
    var head := Hex2(bs[0]) + ":";
    var r := head + rest;
    assert r == Hex2(bs[0]) + ":" + rest;
    forall i | 0 <= i < |bs| ensures r[3 * i..3 * i + 2] == Hex2(bs[i]) {
      if i > 0 {
        assert bs[1..][i - 1] == bs[i];
        ShiftSlice(head, rest, 3 * (i - 1), 3 * (i - 1) + 2);
      }
    }
    forall i | 0 <= i < |bs| - 1 ensures r[3 * i + 2] == ':' {
      if i > 0 {
        assert r[3 * i + 2] == rest[3 * (i - 1) + 2];
      }
    }
    NoLowerHexConcat(Hex2(bs[0]), ":");
    NoLowerHexConcat(head, rest);
  }

  lemma NoLowerHexConcat(a: string, b: string)
    requires NoLowerHex(a) && NoLowerHex(b)
    ensures NoLowerHex(a + b)
  {
    forall i | 0 <= i < |a + b| ensures !('a' <= (a + b)[i] <= 'f') {
      if i >= |a| {
        assert (a + b)[i] == b[i - |a|];
      }
    }
  }

  /** A slice of the second part of a concatenation, seen from the whole. */
  lemma ShiftSlice(p: string, q: string, lo: nat, hi: nat)
    requires lo <= hi <= |q|
    ensures (p + q)[|p| + lo..|p| + hi] == q[lo..hi]
  {
  }

  /** A MAC address as `{:02X}:{:02X}:{:02X}:{:02X}:{:02X}:{:02X}` over the first six bytes:
      six fields of two hexadecimal digits, each reading back as its byte. */
  function MacText(bytes: seq<byte>): (mac: string)
    requires |bytes| >= 6
    ensures |mac| == 17
    ensures forall i :: 0 <= i < 5 ==> mac[3 * i + 2] == ':'
    ensures forall i :: 0 <= i < 6 ==> AllHexDigits(mac[3 * i..3 * i + 2])
    ensures forall i :: 0 <= i < 6 ==> ParseHex(mac[3 * i..3 * i + 2]) == bytes[i]
    ensures NoLowerHex(mac)
  {
    MacFields(bytes);
    HexPairs(bytes[..6])
  }

  lemma MacFields(bytes: seq<byte>)
    requires |bytes| >= 6
    ensures |HexPairs(bytes[..6])| == 17
    ensures forall i :: 0 <= i < 5 ==> HexPairs(bytes[..6])[3 * i + 2] == ':'
    ensures forall i :: 0 <= i < 6 ==> AllHexDigits(HexPairs(bytes[..6])[3 * i..3 * i + 2])
    ensures forall i :: 0 <= i < 6 ==> ParseHex(HexPairs(bytes[..6])[3 * i..3 * i + 2]) == bytes[i]
  {
    var six := bytes[..6];
    var mac := HexPairs(six);
    assert |six| - 1 == 5;
    forall i | 0 <= i < 5 ensures mac[3 * i + 2] == ':' {
    }
    forall i | 0 <= i < 6
      ensures AllHexDigits(mac[3 * i..3 * i + 2]) && ParseHex(mac[3 * i..3 * i + 2]) == bytes[i]
    {
      assert six[i] == bytes[i];
      var h := Hex2(six[i]);
      assert mac[3 * i..3 * i + 2] == h;
    }
  }

  /** Reading a MAC text back: two MAC texts are equal exactly when the six bytes are. */
  lemma MacTextInjective(a: seq<byte>, b: seq<byte>)
    requires |a| >= 6 && |b| >= 6
    ensures MacText(a) == MacText(b) <==> a[..6] == b[..6]
  {
    if MacText(a) == MacText(b) {
      forall i | 0 <= i < 6 ensures a[i] == b[i] {
        assert ParseHex(MacText(a)[3 * i..3 * i + 2]) == a[i];
      }
    }
    if a[..6] == b[..6] {
      assert a[0] == b[0] && a[1] == b[1] && a[2] == b[2];
      assert a[3] == b[3] && a[4] == b[4] && a[5] == b[5];
    }
  }

  /** Appending one byte appends one colon-separated field. */
  lemma {:induction false} HexPairsSnoc(bs: seq<byte>, b: byte)
    requires |bs| >= 1
    ensures HexPairs(bs + [b]) == HexPairs(bs) + ":" + Hex2(b)
    decreases |bs|
  {
    var ext := bs + [b];
    if |bs| == 1 {
      assert ext[1..] == [b];
    } else {
      assert ext[1..] == bs[1..] + [b];
      HexPairsSnoc(bs[1..], b);
    }
  }
}
