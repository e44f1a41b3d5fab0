/**
 * Text and byte conversions used by the serial port: the ASCII salvage that
 * read_str falls back to when a reply is not valid UTF-8, the UTF-8 encoding
 * that dicttobyte applies to a serialised request, and the lower-casing of
 * replies and keys in full_one_cycle_with_key.
 */
module Text {

  newtype byte = x: int | 0 <= x < 0x100

  // ---------------------------------------------------------------------------
  // ASCII salvage (read_str, fallback path)
  // ---------------------------------------------------------------------------

  /** True when the salvage drops at least one byte of `bs`: a byte of value 127 or more. */
  predicate DropsByte(bs: seq<byte>)
  {
    exists b :: b in bs && b >= 127
  }

  /** Whether a byte is dropped, one byte at a time. */
  lemma DropsByteSnoc(bs: seq<byte>, b: byte)
    ensures DropsByte(bs + [b]) <==> DropsByte(bs) || b >= 127
  {
    assert b in bs + [b];
    if DropsByte(bs) {
      var x :| x in bs && x >= 127;
      assert x in bs + [b];
    }
  }

  /** The character Python's chr gives for a byte. */
  function Chr(b: byte): (c: char)
    requires b < 127
    ensures c as int == b as int
  {
    (b as int) as char
  }

  /**
   * The text the fallback decoder builds: every byte of `bs` below 127, in
   * order, each turned into the character with that code.
   */
  function Salvage(bs: seq<byte>): (s: string)
    ensures |s| <= |bs|
    ensures forall i :: 0 <= i < |s| ==> s[i] as int < 127
  {
    if bs == [] then ""
    else
      var last := bs[|bs| - 1];
      Salvage(bs[..|bs| - 1]) + (if last < 127 then [Chr(last)] else "")
  }

  /** Salvaging a concatenation salvages each part. */
  lemma {:induction false} SalvageAppend(a: seq<byte>, b: seq<byte>)
    ensures Salvage(a + b) == Salvage(a) + Salvage(b)
    decreases |b|
  {
    if b == [] {
      assert a + b == a;
    } else {
      var b' := b[..|b| - 1];
      assert (a + b)[..|a + b| - 1] == a + b';
      SalvageAppend(a, b');
    }
  }

  /** A reply with no byte of 127 or more is kept whole, byte for character. */
  lemma {:induction false} SalvageKeepsAscii(bs: seq<byte>)
    requires !DropsByte(bs)
    ensures |Salvage(bs)| == |bs|
    ensures forall i :: 0 <= i < |bs| ==> Salvage(bs)[i] as int == bs[i] as int
  {
    if bs != [] {
      var init := bs[..|bs| - 1];
      assert !DropsByte(init) by {
        forall b | b in init ensures b < 127 {
          assert b in bs;
        }
      }
      SalvageKeepsAscii(init);
      assert bs[|bs| - 1] in bs;
    }
  }

  /** The salvage loses nothing exactly when no byte of 127 or more is present. */
  lemma {:induction false} SalvageWholeIff(bs: seq<byte>)
    ensures |Salvage(bs)| == |bs| <==> !DropsByte(bs)
  {
    if bs == [] {
    } else {
      var init := bs[..|bs| - 1];
      var last := bs[|bs| - 1];
      SalvageWholeIff(init);
      assert bs == init + [last];
      assert last in bs;
      if last >= 127 {
        assert DropsByte(bs);
        assert |Salvage(bs)| == |Salvage(init)| <= |init| < |bs|;
      } else {
        assert |Salvage(bs)| == |Salvage(init)| + 1;
        if DropsByte(init) {
          var b :| b in init && b >= 127;
          assert b in bs;
        }
        if DropsByte(bs) {
          var b :| b in bs && b >= 127;
          assert b in init;
        }
      }
    }
  }

  // ---------------------------------------------------------------------------
  // Lower-casing (str.lower, restricted to ASCII letters)
  // ---------------------------------------------------------------------------

  predicate IsUpper(c: char)
  {
    'A' <= c <= 'Z'
  }

  function LowerChar(c: char): (l: char)
    ensures !IsUpper(l)
    ensures IsUpper(c) ==> l as int == c as int + 32
    ensures !IsUpper(c) ==> l == c
  {
    if IsUpper(c) then (c as int + 32) as char else c
  }

  /** s.lower(): every upper-case ASCII letter replaced by its lower-case form. */
  function Lower(s: string): (r: string)
    ensures |r| == |s|
  {
    seq(|s|, i requires 0 <= i < |s| => LowerChar(s[i]))
  }

  /** A lower-cased text contains no upper-case letter. */
  lemma LowerHasNoUpper(s: string)
    ensures forall i :: 0 <= i < |s| ==> !IsUpper(Lower(s)[i])
  {
  }

  /** Lower-casing changes a text exactly when it contains an upper-case letter. */
  lemma LowerFixedIff(s: string)
    ensures Lower(s) == s <==> forall i :: 0 <= i < |s| ==> !IsUpper(s[i])
  {
    if Lower(s) == s {
      forall i | 0 <= i < |s| ensures !IsUpper(s[i]) {
        assert Lower(s)[i] == LowerChar(s[i]);
      }
    } else {
      var i :| 0 <= i < |s| && Lower(s)[i] != s[i];
      assert IsUpper(s[i]);
    }
  }

  // ---------------------------------------------------------------------------
  // UTF-8 encoding (str.encode('utf-8'), RFC 3629 section 3)
  // ---------------------------------------------------------------------------

  /** The UTF-8 bytes of one Unicode scalar value. */
  function EncodeChar(c: char): (bs: seq<byte>)
    ensures 1 <= |bs| <= 4
    ensures |bs| == 1 <==> c as int < 0x80
    ensures |bs| == 1 ==> bs[0] as int == c as int
  {
    var n := c as int;
    if n < 0x80 then
      [n as byte]
    else if n < 0x800 then
      [(0xC0 + n / 0x40) as byte, (0x80 + n % 0x40) as byte]
    else if n < 0x10000 then
      [(0xE0 + n / 0x1000) as byte, (0x80 + (n / 0x40) % 0x40) as byte, (0x80 + n % 0x40) as byte]
    else
      [(0xF0 + n / 0x40000) as byte, (0x80 + (n / 0x1000) % 0x40) as byte,
       (0x80 + (n / 0x40) % 0x40) as byte, (0x80 + n % 0x40) as byte]
  }

  /** The UTF-8 encoding of a text: its characters' encodings, in order. */
  function Encode(s: string): (bs: seq<byte>)
    ensures |bs| >= |s|
  {
    if s == "" then [] else Encode(s[..|s| - 1]) + EncodeChar(s[|s| - 1])
  }

  /** Encoding a concatenation encodes each part. */
  lemma {:induction false} EncodeAppend(s: string, t: string)
    ensures Encode(s + t) == Encode(s) + Encode(t)
    decreases |t|
  {
    if t == "" {
      assert s + t == s;
    } else {
      var t' := t[..|t| - 1];
      assert (s + t)[..|s + t| - 1] == s + t';
      assert (s + t)[|s + t| - 1] == t[|t| - 1];
      EncodeAppend(s, t');
    }
  }

  /** An ASCII text encodes to one byte per character, with the character's code. */
  lemma {:induction false} EncodeAscii(s: string)
    requires forall i :: 0 <= i < |s| ==> s[i] as int < 0x80
    ensures |Encode(s)| == |s|
    ensures forall i :: 0 <= i < |s| ==> Encode(s)[i] as int == s[i] as int
  {
    if s != "" {
      EncodeAscii(s[..|s| - 1]);
    }
  }
}
