/**
 * Firmware utilities: the hexadecimal encoder used to print packets and the
 * re-entrancy guard of the cycle counter.
 */
module Utils {
  import opened Wrappers
  import opened Bits

  /** The digit table indexed by `hex_encode`. */
  const HEX_DIGITS: string := "0123456789abcdef"

  /** The two lower-case digits of one byte: high nibble first. */
  function HexPair(b: byte): (p: string)
    ensures |p| == 2
  {
    [HEX_DIGITS[(b as nat) / 16], HEX_DIGITS[(b as nat) % 16]]
  }

  /** `b >> 4` and `b & 0xF` are the high and low nibbles of a byte. */
  lemma Nibbles(b: byte)
    ensures (b >> 4) as nat == (b as nat) / 16 && (b & 0xF) as nat == (b as nat) % 16
  {
  }

  /** The text `hex_encode` leaves before the terminator, two digits per byte. */
  function HexString(bs: seq<byte>): (s: string)
    ensures |s| == 2 * |bs|
  {
    if bs == [] then [] else HexString(bs[..|bs| - 1]) + HexPair(bs[|bs| - 1])
  }

  /** Characters 2i and 2i+1 are the digits of byte i. */
  lemma {:induction false} HexStringIndex(bs: seq<byte>, i: nat)
    requires i < |bs|
    ensures HexString(bs)[2 * i] == HEX_DIGITS[(bs[i] as nat) / 16]
    ensures HexString(bs)[2 * i + 1] == HEX_DIGITS[(bs[i] as nat) % 16]
  {
    var n := |bs| - 1;
    if i < n {
      HexStringIndex(bs[..n], i);
    }
  }

  /** Every character of the encoding is a lower-case hexadecimal digit; no bytes give no text. */
  lemma HexStringDigits(bs: seq<byte>)
    ensures bs == [] ==> HexString(bs) == []
    ensures forall k :: 0 <= k < |HexString(bs)| ==> HexString(bs)[k] in HEX_DIGITS
  {
    forall k | 0 <= k < |HexString(bs)|
      ensures HexString(bs)[k] in HEX_DIGITS
    {
      HexStringIndex(bs, k / 2);
    }
  }

  /** The value of one digit of the table, if it is one. */
  function DigitValue(c: char): (r: Option<nat>)
    ensures r.Some? ==> r.value < 16
  {
    if '0' <= c <= '9' then Some(c as nat - '0' as nat)
    else if 'a' <= c <= 'f' then Some(c as nat - 'a' as nat + 10)
    else None
  }

  /** Exactly the characters of the table have a value, and it is their position in the table. */
  lemma DigitValueCorrect(c: char)
    ensures DigitValue(c).Some? <==> c in HEX_DIGITS
    ensures DigitValue(c).Some? ==> HEX_DIGITS[DigitValue(c).value] == c
  {
  }

  lemma DigitValueOf(n: nat)
    requires n < 16
    ensures DigitValue(HEX_DIGITS[n]) == Some(n)
  {
  }

  /** Decoder for the encoder's output: pairs of digits back to bytes; odd length or a foreign character fails. */
  function HexDecode(s: string): Option<seq<byte>>
  {
    if s == [] then Some([])
    else if |s| < 2 then None
    else
      var n := |s| - 2;
      var init, hi, lo := HexDecode(s[..n]), DigitValue(s[n]), DigitValue(s[n + 1]);
      if init.Some? && hi.Some? && lo.Some? then Some(init.value + [ByteOf(hi.value, lo.value)])
      else None
  }

  /** The byte with the given high and low nibbles. */
  function ByteOf(hi: nat, lo: nat): byte
    requires hi < 16 && lo < 16
  {
    ToByte(hi * 16 + lo)
  }

  lemma ByteOfNibbles(b: byte)
    ensures ByteOf((b as nat) / 16, (b as nat) % 16) == b
  {
    assert (b as nat) / 16 * 16 + (b as nat) % 16 == b as nat;
    ByteValueInjective(ByteOf((b as nat) / 16, (b as nat) % 16), b);
  }

  /** Decoding text followed by the two digits of a byte decodes the text, then that byte. */
  lemma HexDecodePair(s: string, b: byte)
    requires HexDecode(s).Some?
    ensures HexDecode(s + HexPair(b)) == Some(HexDecode(s).value + [b])
  {
    var t := s + HexPair(b);
    assert t[..|s|] == s;
    DigitValueOf((b as nat) / 16);
    DigitValueOf((b as nat) % 16);
    ByteOfNibbles(b);
  }

  /** Decoding the hexadecimal text gives back exactly the bytes that were encoded. */
  lemma {:induction false} HexRoundTrip(bs: seq<byte>)
    ensures HexDecode(HexString(bs)) == Some(bs)
  {
    if bs != [] {
      var n := |bs| - 1;
      var prefix := HexString(bs[..n]);
      assert HexString(bs) == prefix + HexPair(bs[n]);
      HexRoundTrip(bs[..n]);
      HexDecodePair(prefix, bs[n]);
      assert bs[..n] + [bs[n]] == bs;
    }
  }

  /**
   * `hex_encode(s, buf, len)`: the terminator goes first at s[2*len], then byte i
   * becomes the digits at s[2i] and s[2i+1]. The caller provides room for 2*len+1
   * characters; nothing past the terminator is touched. The input is read-only
   * (`const uint8_t *`) and is passed as a value.
   */
  method HexEncode(s: array<char>, buf: seq<byte>, len: nat)
    requires len <= |buf| && 2 * len + 1 <= s.Length
    modifies s
    ensures s[..2 * len] == HexString(buf[..len])
    ensures s[2 * len] == '\0'
    ensures s[2 * len + 1..] == old(s[2 * len + 1..])
  {
    s[2 * len] := '\0';
    var i := 0;
    while i < len
      invariant i <= len
      invariant s[..2 * i] == HexString(buf[..i])
      invariant s[2 * len] == '\0'
      invariant s[2 * len + 1..] == old(s[2 * len + 1..])
    {
      ghost var before := s[..2 * i];
      var b := buf[i];
      Nibbles(b);
      s[i * 2] := HEX_DIGITS[(b >> 4) as nat];
      s[i * 2 + 1] := HEX_DIGITS[(b & 0xF) as nat];
      assert s[..2 * (i + 1)] == before + HexPair(b);
      assert buf[..i + 1][..i] == buf[..i] && buf[..i + 1][i] == b;
      assert HexString(buf[..i + 1]) == HexString(buf[..i]) + HexPair(b);
      i := i + 1;
    }
  }

  /** A guard state (counting, halted) and the effect of a start (true) or stop (false). */
  datatype Guard = Guard(counting: bool, halted: bool)

  function GuardStep(g: Guard, start: bool): (r: Guard)
    ensures start ==> r.counting && r.halted == (g.halted || g.counting)
    ensures !start ==> !r.counting && r.halted == g.halted
  {
    if start then Guard(true, g.halted || g.counting) else Guard(false, g.halted)
  }

  /**
   * The cycle counter's guard (`counting_cycles`). Starting while a count is in
   * progress is an error (`Error_Handler`, modelled by `halted`).
   */
  class CycleCounter {
    var counting: bool
    var halted: bool

    /** The guard as a value, so that the trace lemmas below apply to the counter. */
    function State(): Guard
      reads this
    {
      Guard(counting, halted)
    }

    constructor()
      ensures !counting && !halted
    {
      counting := false;
      halted := false;
    }

    method StartCycleCount()
      modifies this
      ensures counting
      ensures halted == (old(halted) || old(counting))
      ensures State() == GuardStep(old(State()), true)
    {
      if counting {
        halted := true;
      } else {
        counting := true;
      }
    }

    method StopCycleCount()
      modifies this
      ensures !counting && halted == old(halted)
      ensures State() == GuardStep(old(State()), false)
    {
      counting := false;
    }
  }

  function GuardRun(g: Guard, events: seq<bool>): Guard
    decreases events
  {
    if events == [] then g else GuardRun(GuardStep(g, events[0]), events[1..])
  }

  /** Measurements that alternate start, stop, start, stop... from an idle guard never halt. */
  predicate Alternating(events: seq<bool>)
  {
    forall k :: 0 <= k < |events| ==> events[k] == (k % 2 == 0)
  }

  lemma {:induction false} AlternatingNeverHalts(g: Guard, events: seq<bool>)
    requires !g.counting && !g.halted && Alternating(events)
    ensures !GuardRun(g, events).halted
    ensures GuardRun(g, events).counting == (|events| % 2 == 1)
    decreases events
  {
    if |events| >= 2 {
      var g2 := GuardStep(GuardStep(g, true), false);
      assert events[0] && !events[1];
      assert events[1..][1..] == events[2..];
      assert Alternating(events[2..]) by {
        forall k | 0 <= k < |events[2..]| ensures events[2..][k] == (k % 2 == 0) {
          assert events[2..][k] == events[k + 2];
        }
      }
      AlternatingNeverHalts(g2, events[2..]);
    } else if |events| == 1 {
      assert events[0];
    }
  }

  /** Two starts without a stop between them always end in the error handler, whatever follows. */
  lemma {:induction false} NestedStartHalts(g: Guard, events: seq<bool>)
    requires g.counting || g.halted
    requires events != [] && events[0]
    ensures GuardRun(g, events).halted
  {
    HaltedStays(GuardStep(g, true), events[1..]);
  }

  lemma {:induction false} HaltedStays(g: Guard, events: seq<bool>)
    requires g.halted
    ensures GuardRun(g, events).halted
    decreases events
  {
    if events != [] {
      HaltedStays(GuardStep(g, events[0]), events[1..]);
    }
  }
}
