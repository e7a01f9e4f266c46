/**
 * Service addresses as text: the ":XXXXXXXX" form written by id_to_hex, the
 * base-16 strtoul that reads it back, the fixed-width name buffer filled by
 * copy_name, and skynet_queryname, which resolves ":hex" and ".name".
 */
module Address {
  import opened Arith
  import opened HandleTable

  const UInt32Limit: nat := 0x1_0000_0000
  /** ULONG_MAX + 1 on a 64-bit target. */
  const ULongLimit: nat := 0x1_0000_0000_0000_0000
  /** GLOBALNAME_LENGTH: the header defining it is not part of this model; the runtime uses 16. */
  const GlobalNameLength: nat := 16

  /** Entry `d` of the upper-case digit table of id_to_hex. */
  function HexChar(d: nat): (c: char)
    requires d < 16
    ensures HexDigitValue(c) == d
  {
    if d < 10 then ('0' as int + d) as char else ('A' as int + d - 10) as char
  }

  predicate IsHexDigit(c: char)
  {
    '0' <= c <= '9' || 'a' <= c <= 'f' || 'A' <= c <= 'F'
  }

  /** The value strtoul gives a base-16 digit. */
  function HexDigitValue(c: char): nat
  {
    if '0' <= c <= '9' then c as int - '0' as int
    else if 'a' <= c <= 'f' then c as int - 'a' as int + 10
    else if 'A' <= c <= 'F' then c as int - 'A' as int + 10
    else 0
  }

  /** The digit id_to_hex writes at position `i` (0 is the most significant): (id >> ((7 - i) * 4)) & 0xf. */
  function IdDigit(id: nat, i: nat): nat
    requires i < 8
  {
    (id / Pow2((7 - i) * 4)) % 16
  }

  /** The eight digits id_to_hex writes after the colon. */
  function HexOf(id: nat): (s: string)
    ensures |s| == 8
  {
    seq(8, i requires 0 <= i < 8 => HexChar(IdDigit(id, i)))
  }

  /** The value of a string of hex digits, most significant first. */
  function HexNumber(d: string): nat
  {
    if |d| == 0 then 0 else HexNumber(d[..|d| - 1]) * 16 + HexDigitValue(d[|d| - 1])
  }

  /** The longest prefix of hex digits. */
  function LeadingHex(s: string): (d: string)
    ensures |d| <= |s| && d == s[..|d|]
    ensures forall k :: 0 <= k < |d| ==> IsHexDigit(d[k])
    ensures |d| < |s| ==> !IsHexDigit(s[|d|])
  {
    if |s| == 0 || !IsHexDigit(s[0]) then [] else [s[0]] + LeadingHex(s[1..])
  }

  /** isspace in the C locale. */
  predicate IsSpace(c: char)
  {
    c == ' ' || c == '\t' || c == '\n' || c == '\r' || c == 12 as char || c == 11 as char
  }

  function SkipSpaces(s: string): (t: string)
    ensures |t| <= |s| && t == s[|s| - |t|..]
    ensures |t| > 0 ==> !IsSpace(t[0])
  {
    if |s| > 0 && IsSpace(s[0]) then SkipSpaces(s[1..]) else s
  }

  /**
   * strtoul(s, NULL, 16): leading white space, an optional sign and an
   * optional 0x prefix are skipped, then the longest run of hex digits is
   * read; an out-of-range value saturates at ULONG_MAX and a minus sign
   * negates modulo 2^64.
   */
  function Strtoul16(s: string): (r: nat)
    ensures r < ULongLimit
  {
    var n := HexNumber(DigitRun(s));
    if n >= ULongLimit then ULongLimit - 1
    else if Negative(s) then (ULongLimit - n) % ULongLimit
    else n
  }

  /** Whether the number strtoul reads carries a minus sign. */
  predicate Negative(s: string)
  {
    var t := SkipSpaces(s);
    |t| > 0 && t[0] == '-'
  }

  /** The run of hex digits strtoul reads, after the spaces, the sign and a 0x prefix. */
  function DigitRun(s: string): string
  {
    LeadingHex(SkipPrefix(SkipSign(SkipSpaces(s))))
  }

  function SkipSign(t: string): string
  {
    if |t| > 0 && (t[0] == '-' || t[0] == '+') then t[1..] else t
  }

  /** A 0x or 0X is skipped only when a hex digit follows it. */
  function SkipPrefix(u: string): string
  {
    if |u| >= 3 && u[0] == '0' && (u[1] == 'x' || u[1] == 'X') && IsHexDigit(u[2]) then u[2..] else u
  }

  /** The first `k` digits of HexOf(id) read back as id / 16^(8 - k). */
  lemma {:induction false} HexPrefixValue(id: nat, k: nat)
    requires k <= 8 && id < UInt32Limit
    ensures HexNumber(HexOf(id)[..k]) == id / Pow2((8 - k) * 4)
  {
    if k == 0 {
      Pow2Values();
      Pow2Add(16, 16);
      DivUnique(id, Pow2(32), 0, id);
    } else {
      var s := HexOf(id);
      HexPrefixValue(id, k - 1);
      var e := (8 - k) * 4;
      assert (8 - (k - 1)) * 4 == e + 4;
      ShiftByDigit(id, e);
      HexOfDigit(id, k - 1);
      DigitStep(s, k, id / Pow2(e));
    }
  }

  /** Digit `i` of HexOf(id) has the value of bits (7 - i) * 4 .. (7 - i) * 4 + 3 of id. */
  lemma HexOfDigit(id: nat, i: nat)
    requires i < 8
    ensures HexDigitValue(HexOf(id)[i]) == (id / Pow2((7 - i) * 4)) % 16
  {
  }

  /** One more digit appended to the digits of q / 16: when it is q's low digit, the number read is q. */
  lemma DigitStep(s: string, k: nat, q: nat)
    requires 1 <= k <= |s|
    requires HexNumber(s[..k - 1]) == q / 16 && HexDigitValue(s[k - 1]) == q % 16
    ensures HexNumber(s[..k]) == q
  {
    assert s[..k][..k - 1] == s[..k - 1];
  }

  /** Shifting right by one more hex digit divides the shifted value by 16. */
  lemma ShiftByDigit(id: nat, e: nat)
    ensures id / Pow2(e + 4) == (id / Pow2(e)) / 16
  {
    Pow2Add(e, 4);
    assert Pow2(4) == 16;
    DivDiv(id, Pow2(e), 16);
  }

  /** Reading back the digits of id_to_hex with strtoul yields the id. */
  lemma HexRoundTrip(id: nat)
    requires id < UInt32Limit
    ensures Strtoul16(HexOf(id)) == id
  {
    var s := HexOf(id);
    HexPrefixValue(id, 8);
    assert s[..8] == s;
    assert Pow2(0) == 1;
    assert forall k :: 0 <= k < |s| ==> IsHexDigit(s[k]) by {
      forall k | 0 <= k < |s| ensures IsHexDigit(s[k]) {
        HexCharIsDigit(IdDigit(id, k));
      }
    }
    StrtoulOfDigits(s);
  }

  lemma HexCharIsDigit(d: nat)
    requires d < 16
    ensures IsHexDigit(HexChar(d))
  {
  }

  /** strtoul reads a string made only of hex digits, and small enough not to saturate, as its value. */
  lemma StrtoulOfDigits(s: string)
    requires forall k :: 0 <= k < |s| ==> IsHexDigit(s[k])
    requires HexNumber(s) < ULongLimit
    ensures Strtoul16(s) == HexNumber(s)
  {
    DigitRunOfDigits(s);
  }

  /** Nothing is skipped before a string of hex digits, and all of it is read. */
  lemma DigitRunOfDigits(s: string)
    requires forall k :: 0 <= k < |s| ==> IsHexDigit(s[k])
    ensures DigitRun(s) == s && !Negative(s)
  {
    NoSpacesBeforeDigits(s);
    assert SkipSign(s) == s;
    if |s| >= 2 {
      assert s[1] != 'x' && s[1] != 'X';
    }
    assert SkipPrefix(s) == s;
    LeadingAllHex(s);
  }

  lemma NoSpacesBeforeDigits(s: string)
    requires forall k :: 0 <= k < |s| ==> IsHexDigit(s[k])
    ensures SkipSpaces(s) == s && (|s| > 0 ==> s[0] != '-' && s[0] != '+')
  {
    if |s| > 0 {
      assert !IsSpace(s[0]);
    }
  }

  lemma {:induction false} LeadingAllHex(s: string)
    requires forall k :: 0 <= k < |s| ==> IsHexDigit(s[k])
    ensures LeadingHex(s) == s
  {
    if |s| > 0 {
      LeadingAllHex(s[1..]);
    }
  }

  /** id_to_hex: writes ':', the eight upper-case hex digits of `id`, most significant first, and a NUL. */
  method IdToHex(str: array<char>, id: nat)
    requires str.Length >= 10
    modifies str
    ensures str[0] == ':' && str[1..9] == HexOf(id) && str[9] == '\0'
    ensures str[10..] == old(str[10..])
  {
    str[0] := ':';
    var i := 0;
    while i < 8
      invariant 0 <= i <= 8 && str[0] == ':'
      invariant forall k :: 0 <= k < i ==> str[k + 1] == HexOf(id)[k]
      invariant str[10..] == old(str[10..])
    {
      str[i + 1] := HexChar((id / Pow2((7 - i) * 4)) % 16);
      i := i + 1;
    }
    str[9] := '\0';
  }

  /** The NUL-padded name buffer copy_name fills from `addr`. */
  function PaddedName(addr: string): (b: string)
    ensures |b| == GlobalNameLength
  {
    var n := if |addr| < GlobalNameLength then |addr| else GlobalNameLength;
    addr[..n] + seq(GlobalNameLength - n, _ => '\0')
  }

  /** The C string held in a buffer: the characters before the first NUL. */
  function CString(b: string): (s: string)
    ensures |s| <= |b| && s == b[..|s|] && '\0' !in s
    ensures |s| < |b| ==> b[|s|] == '\0'
  {
    if |b| == 0 || b[0] == '\0' then [] else [b[0]] + CString(b[1..])
  }

  /** A NUL-free string followed by NUL padding reads back as itself. */
  lemma {:induction false} CStringOfPadded(p: string, z: string)
    requires '\0' !in p && (|z| == 0 || z[0] == '\0')
    ensures CString(p + z) == p
  {
    if |p| > 0 {
      assert (p + z)[1..] == p[1..] + z;
      CStringOfPadded(p[1..], z);
      assert p == [p[0]] + p[1..];
    }
  }

  /** A name of at most 16 characters survives copy_name; a longer one is cut to its first 16. */
  lemma PaddedNameReads(addr: string)
    requires '\0' !in addr
    ensures CString(PaddedName(addr)) == if |addr| <= GlobalNameLength then addr else addr[..GlobalNameLength]
  {
    var n := if |addr| < GlobalNameLength then |addr| else GlobalNameLength;
    assert '\0' !in addr[..n] by {
      forall k | 0 <= k < n ensures addr[..n][k] != '\0' {
        assert addr[..n][k] == addr[k];
      }
    }
    CStringOfPadded(addr[..n], seq(GlobalNameLength - n, _ => '\0'));
    if |addr| <= GlobalNameLength {
      assert addr[..n] == addr;
    }
  }

  /**
   * copy_name: copies `addr` (a C string, so without NUL) into the
   * GLOBALNAME_LENGTH-byte buffer, stopping after 16 characters, and pads the
   * rest with NUL.
   */
  method CopyName(name: array<char>, addr: string)
    requires name.Length == GlobalNameLength && '\0' !in addr
    modifies name
    ensures name[..] == PaddedName(addr)
  {
    var i := 0;
    while i < GlobalNameLength && i < |addr|
      invariant 0 <= i <= GlobalNameLength && i <= |addr|
      invariant name[..i] == addr[..i]
    {
      name[i] := addr[i];
      i := i + 1;
    }
    while i < GlobalNameLength
      invariant 0 <= i <= GlobalNameLength
      invariant forall k :: 0 <= k < i ==> name[k] == PaddedName(addr)[k]
    {
      name[i] := '\0';
      i := i + 1;
    }
  }

  /** The handle skynet_queryname (and tohandle) resolves: ":hex" parsed, ".name" looked up, anything else 0. */
  function AddressValue(names: seq<HandleName>, a: string): nat
  {
    if |a| > 0 && a[0] == ':' then Strtoul16(a[1..]) % UInt32Limit
    else if |a| > 0 && a[0] == '.' then LookupName(names, a[1..])
    else 0
  }

  /** skynet_queryname: the handle named by `a`, or 0 for an address form it does not support. */
  method QueryName(s: HandleStorage, a: string) returns (h: nat)
    requires s.Valid()
    ensures h == AddressValue(s.Names(), a)
  {
    if |a| > 0 && a[0] == ':' {
      return Strtoul16(a[1..]) % UInt32Limit;
    } else if |a| > 0 && a[0] == '.' {
      h := s.FindName(a[1..]);
      return;
    }
    return 0;
  }

  /** The address id_to_hex writes for a handle resolves back to that handle, whatever names are bound. */
  lemma QueryHexAddress(names: seq<HandleName>, id: nat)
    requires id < UInt32Limit
    ensures AddressValue(names, [':'] + HexOf(id)) == id
  {
    var a := [':'] + HexOf(id);
    assert a[0] == ':' && a[1..] == HexOf(id);
    HexRoundTrip(id);
    ModSmall(id, UInt32Limit);
  }

  /** A ".name" address resolves to the handle bound to that name in the sorted name array. */
  lemma QueryBoundName(names: seq<HandleName>, i: int)
    requires SortedNames(names) && 0 <= i < |names|
    ensures AddressValue(names, ['.'] + names[i].name) == names[i].handle
  {
    var a := ['.'] + names[i].name;
    assert a[1..] == names[i].name;
    LookupSorted(names, i);
  }
}
