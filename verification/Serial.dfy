/** Serial numbers as hexadecimal text. */
module SerialRules {
  import opened NumberRules

  /** Two digits a byte, without leading zero bytes. */
  function HexOf(n: nat): string {
    if n == 0 then "" else HexOf(Quot(n, 256)) + HexByte(Rem(n, 256))
  }

  lemma {:induction false} HexShape(n: nat)
    ensures |HexOf(n)| % 2 == 0 && (HexOf(n) == "" <==> n == 0)
    ensures forall k :: 0 <= k < |HexOf(n)| ==> IsHex(HexOf(n)[k])
  {
    if n > 0 {
      HexShape(Quot(n, 256));
      hide Quot, Rem;
    }
  }

  /** The text of a serial number in the database. */
  function SerialText(n: int): string {
    if n == 0 then "00" else if n < 0 then "-" + HexOf(-n) else HexOf(n)
  }

  /** What the serial index compares: the text without leading zeros. */
  function Key(s: string): string {
    if s != "" && s[0] == '0' then Key(s[1..]) else s
  }

  lemma {:induction false} ValueOfHex(n: nat)
    ensures Value(HexOf(n), 16) == n
  {
    if n > 0 {
      var q, v := Quot(n, 256), Rem(n, 256);
      Divided(n, 256);
      ValueOfHex(q);
      assert HexOf(n) == HexOf(q) + HexByte(v);
      ValueOfByte(HexOf(q), v);
      hide Value, HexOf, HexByte;
    }
  }

  lemma {:induction false} ValueDropsZero(s: string)
    requires s != "" && s[0] == '0'
    ensures Value(s[1..], 16) == Value(s, 16)
  {
    if |s| > 1 {
      ValueDropsZero(s[..|s| - 1]);
      assert s[1..][..|s| - 2] == s[..|s| - 1][1..];
    }
  }

  lemma {:induction false} ValueOfKey(s: string)
    ensures Value(Key(s), 16) == Value(s, 16)
  {
    if s != "" && s[0] == '0' {
      ValueDropsZero(s);
      ValueOfKey(s[1..]);
    }
  }

  /** The key is the text from the first character on that is no zero. */
  lemma {:induction false} KeySkipsZeros(s: string)
    ensures var n := |s| - |Key(s)|;
            && 0 <= n && Key(s) == s[n..] && (Key(s) != "" ==> Key(s)[0] != '0')
            && forall k :: 0 <= k < n ==> s[k] == '0'
  {
    if s != "" && s[0] == '0' {
      KeySkipsZeros(s[1..]);
      var n := |s| - |Key(s)|;
      assert forall k :: 0 < k < n ==> s[k] == s[1..][k - 1];
    }
  }

  /** The text denotes the number in base 16, with a sign if it is negative, two digits a byte and no
      more bytes than it needs; zero is one byte. */
  lemma SerialTextDenotes(n: int)
    ensures SerialText(0) == "00"
    ensures n > 0 ==> var t := SerialText(n); Value(t, 16) == n && |t| % 2 == 0 && |t| >= 2 && t[..2] != "00"
    ensures n < 0 ==> SerialText(n) == "-" + SerialText(-n)
  {
    if n > 0 {
      ValueOfHex(n);
      HexShape(n);
      FirstByte(n);
      hide HexOf, Value;
    }
  }

  lemma {:induction false} FirstByte(n: nat)
    requires n > 0
    ensures |HexOf(n)| >= 2 && HexOf(n)[..2] != "00"
  {
    if n < 256 {
      assert Quot(n, 256) == 0 && HexOf(0) == "";
      assert HexOf(n) == HexByte(n);
      HexByteZero(n);
    } else {
      FirstByte(Quot(n, 256));
      assert HexOf(n)[..2] == HexOf(Quot(n, 256))[..2];
    }
  }

  lemma HexByteZero(v: Byte)
    requires v > 0
    ensures HexByte(v)[..2] != "00"
  {
    assert HexByte(v)[0] == '0' ==> v / 16 == 0;
    assert HexByte(v)[1] == '0' ==> v % 16 == 0;
  }

  /** The index tells any two serial numbers apart. */
  lemma KeyUnique(a: int, b: int)
    ensures Key(SerialText(a)) == Key(SerialText(b)) ==> a == b
  {
    KeyText(a);
    KeyText(b);
    hide Key, SerialText, Value;
  }

  function NumberOf(key: string): int {
    if key != "" && key[0] == '-' then -(Value(key[1..], 16) as int) else Value(key, 16)
  }

  lemma KeyOfNegative(s: string)
    requires s != "" && s[0] == '-'
    ensures Key(s) == s
  {
  }

  lemma KeyTextNegative(h: string, n: nat)
    requires Value(h, 16) == n
    ensures NumberOf(Key("-" + h)) + n == 0
  {
    assert ("-" + h)[1..] == h;
    KeyOfNegative("-" + h);
    hide Value, Key;
  }

  lemma KeyTextPositive(h: string, n: nat)
    requires Value(h, 16) == n && forall k :: 0 <= k < |h| ==> IsHex(h[k])
    ensures NumberOf(Key(h)) == n
  {
    ValueOfKey(h);
    NoSign(h);
    KeyChars(h, '-');
    hide Value, Key;
  }

  /** The key gives the number back: its sign by the first character. */
  lemma KeyText(n: int)
    ensures NumberOf(Key(SerialText(n))) == n
  {
    hide HexOf, Value, Key, NumberOf;
    if n < 0 {
      ValueOfHex(-n);
      KeyTextNegative(HexOf(-n), -n);
    } else if n == 0 {
      ZeroKey();
    } else {
      ValueOfHex(n);
      HexShape(n);
      KeyTextPositive(HexOf(n), n);
    }
  }

  lemma NoSign(s: string)
    requires forall k :: 0 <= k < |s| ==> IsHex(s[k])
    ensures '-' !in s
  {
  }

  lemma ZeroKey()
    ensures NumberOf(Key("00")) == 0
  {
    assert "00"[1..] == "0" && "0"[1..] == "";
    assert Key("0") == Key("");
  }

  lemma {:induction false} KeyChars(s: string, c: char)
    requires c !in s
    ensures c !in Key(s)
  {
    if s != "" && s[0] == '0' {
      KeyChars(s[1..], c);
    }
  }

  function Unsigned(s: string): string {
    if s != "" && s[0] == '-' then s[1..] else s
  }

  /** What is demanded of a serial number when the database is loaded. */
  predicate SerialOk(s: string) {
    && |Unsigned(s)| % 2 == 0 && |Unsigned(s)| >= 2
    && forall k :: 0 <= k < |Unsigned(s)| ==> IsHex(Unsigned(s)[k])
  }

  lemma SerialTextOk(n: int)
    ensures SerialOk(SerialText(n))
  {
    if n == 0 {
      assert Unsigned(SerialText(n)) == "00";
    } else {
      var h := HexOf(if n < 0 then -n else n);
      HexShape(if n < 0 then -n else n);
      hide HexOf;
      assert IsHex(h[0]);
      assert Unsigned(SerialText(n)) == h;
    }
  }
}

/** BN_bn2hex and the text of serial numbers. */
module Serial {
  import opened NumberRules
  import opened SerialRules

  /** The number whose first `i` bytes these are, the most significant first. */
  function FromBytes(bytes: seq<Byte>, i: nat): nat
    requires i <= |bytes|
  {
    if i == 0 then 0 else FromBytes(bytes, i - 1) * 256 + bytes[i - 1]
  }

  lemma LastByte(n: nat, v: Byte)
    ensures Quot(n * 256 + v, 256) == n && Rem(n * 256 + v, 256) == v
  {
  }

  lemma HexStep(n: nat, v: Byte)
    ensures HexOf(n * 256 + v) == if n == 0 && v == 0 then "" else HexOf(n) + HexByte(v)
  {
    LastByte(n, v);
    hide HexByte, Quot, Rem;
  }

  lemma StripStep(sign: string, n: nat, v: Byte)
    ensures sign + HexOf(n * 256 + v) == if n == 0 && v == 0 then sign + HexOf(n) else sign + HexOf(n) + HexByte(v)
  {
    HexStep(n, v);
    assert n == 0 ==> HexOf(n) == "";
    hide HexByte, HexOf;
    assert sign + HexOf(n) + HexByte(v) == sign + (HexOf(n) + HexByte(v));
  }

  /** The loop over the bytes, which strips leading zeros. */
  method BnToHex(neg: bool, bytes: seq<Byte>) returns (s: string)
    requires bytes != [] ==> FromBytes(bytes, |bytes|) > 0
    ensures s == (if neg then "-" else "") + if bytes == [] then "0" else HexOf(FromBytes(bytes, |bytes|))
  {
    s := "";
    if neg {
      s := s + "-";
    }
    if bytes == [] {
      s := s + "0";
      return;
    }
    assert s + HexOf(0) == s;
    s := StripZeros(s, bytes);
  }

  method StripZeros(sign: string, bytes: seq<Byte>) returns (s: string)
    requires sign + HexOf(0) == sign
    ensures s == sign + HexOf(FromBytes(bytes, |bytes|))
  {
    assert FromBytes(bytes, 0) == 0;
    hide HexOf, HexByte;
    s := sign;
    var z := false;
    for i := 0 to |bytes|
      invariant z <==> FromBytes(bytes, i) != 0
      invariant s == sign + HexOf(FromBytes(bytes, i))
    {
      var v := bytes[i];
      StripStep(sign, FromBytes(bytes, i), v);
      if z || v != 0 {
        s := s + HexByte(v);
        z := true;
      }
    }
  }

  /** The serial number as issuing and revoking write it: zero has two digits as all others do. */
  method SerialOf(neg: bool, bytes: seq<Byte>) returns (s: string)
    requires if bytes != [] then FromBytes(bytes, |bytes|) > 0 else !neg
    ensures s == SerialText(if neg then -(FromBytes(bytes, |bytes|) as int) else FromBytes(bytes, |bytes|))
  {
    if bytes == [] {
      return "00";
    }
    s := BnToHex(neg, bytes);
    hide HexOf, FromBytes;
    assert "" + HexOf(FromBytes(bytes, |bytes|)) == HexOf(FromBytes(bytes, |bytes|));
  }
}
