/** URL encoding, and decoding into another buffer or in place. */
module UrlCodec {
  type byte = x: int | 0 <= x < 256

  predicate IsDigit(c: byte) {
    '0' as int <= c <= '9' as int
  }

  predicate IsAlnum(c: byte) {
    IsDigit(c) || 'A' as int <= c <= 'Z' as int || 'a' as int <= c <= 'z' as int
  }

  predicate IsHexDigit(c: byte) {
    IsDigit(c) || 'A' as int <= c <= 'F' as int || 'a' as int <= c <= 'f' as int
  }

  const PERCENT: byte := '%' as int
  const PLUS: byte := '+' as int
  const SPACE: byte := ' ' as int
  const DONT_ESCAPE := "._-$,;~()"
  const HEX := "0123456789abcdef"

  predicate Plain(c: byte) {
    IsAlnum(c) || exists k :: 0 <= k < |DONT_ESCAPE| && DONT_ESCAPE[k] as int == c
  }

  function Digit(d: int): byte
    requires 0 <= d < 16
  {
    if d < 10 then '0' as int + d else 'a' as int + d - 10
  }

  /** The value of a hexadecimal digit, of either case. */
  function HexValue(c: byte): (d: int)
    requires IsHexDigit(c)
    ensures 0 <= d < 16
  {
    if IsDigit(c) then c - '0' as int
    else if c >= 'a' as int then c - 'a' as int + 10
    else c - 'A' as int + 10
  }

  // ----- what is encoded and decoded

  function EncodedByte(c: byte): (e: seq<byte>)
    ensures 0 < |e| <= 3
  {
    if Plain(c) then [c] else [PERCENT, Digit(c / 16), Digit(c % 16)]
  }

  function Encoded(s: seq<byte>): seq<byte> {
    if s == [] then [] else EncodedByte(s[0]) + Encoded(s[1..])
  }

  /** An escape starts s. */
  predicate Escape(s: seq<byte>) {
    |s| > 2 && s[0] == PERCENT && IsHexDigit(s[1]) && IsHexDigit(s[2])
  }

  /** How many bytes the first decoded byte takes, and what it is. */
  function Width(s: seq<byte>): nat {
    if Escape(s) then 3 else 1
  }

  function DecodedByte(s: seq<byte>, form: bool): byte
    requires s != []
  {
    if Escape(s) then HexValue(s[1]) * 16 + HexValue(s[2])
    else if form && s[0] == PLUS then SPACE
    else s[0]
  }

  function Decoded(s: seq<byte>, form: bool): seq<byte> {
    if s == [] then [] else [DecodedByte(s, form)] + Decoded(s[Width(s)..], form)
  }

  /** Decoding gives back what was encoded, in either mode. */
  lemma {:induction false} DecodedEncoded(s: seq<byte>, form: bool)
    ensures Decoded(Encoded(s), form) == s
  {
    if s != [] {
      DecodedEncoded(s[1..], form);
      FirstDecoded(s[0], Encoded(s[1..]), form);
      assert s == [s[0]] + s[1..];
    }
  }

  lemma FirstDecoded(c: byte, rest: seq<byte>, form: bool)
    ensures var e := EncodedByte(c) + rest;
            DecodedByte(e, form) == c && Width(e) == |EncodedByte(c)| && e[Width(e)..] == rest
  {
    var e := EncodedByte(c) + rest;
    if Plain(c) {
      PlainIsNotSpecial(c);
      assert e[0] == c && e[1..] == rest;
    } else {
      DigitsAreHex(c / 16);
      DigitsAreHex(c % 16);
      assert e[0] == PERCENT && e[1] == Digit(c / 16) && e[2] == Digit(c % 16) && e[3..] == rest;
    }
  }

  lemma PlainIsNotSpecial(c: byte)
    requires Plain(c)
    ensures c != PERCENT && c != PLUS
  {
    if !IsAlnum(c) {
      var k :| 0 <= k < |DONT_ESCAPE| && DONT_ESCAPE[k] as int == c;
      assert k == 0 || k == 1 || k == 2 || k == 3 || k == 4 || k == 5 || k == 6 || k == 7 || k == 8;
    }
  }

  lemma DigitsAreHex(d: int)
    requires 0 <= d < 16
    ensures IsHexDigit(Digit(d)) && HexValue(Digit(d)) == d && Plain(Digit(d))
  {}

  // ----- the code

  method Strchr(text: string, c: byte) returns (found: bool)
    ensures found <==> exists k :: 0 <= k < |text| && text[k] as int == c
  {
    found := false;
    for k := 0 to |text|
      invariant !found && forall m :: 0 <= m < k ==> text[m] as int != c
    {
      if text[k] as int == c {
        return true;
      }
    }
  }

  lemma EncodedForm(c: byte)
    ensures EncodedByte(c) == if Plain(c) then [c] else [PERCENT, Digit(c / 16), Digit(c % 16)]
  {}

  lemma HexDigit(d: int)
    requires 0 <= d < 16
    ensures HEX[d] as int == Digit(d)
  {}

  method PutByte(dst: array<byte>, j: nat, c: byte)
    requires j < dst.Length
    modifies dst
    ensures dst[..j] == old(dst[..j]) && dst[..j + 1] == old(dst[..j]) + [c]
    ensures forall k :: j < k < dst.Length ==> dst[k] == old(dst[k])
  {
    ghost var before := dst[..j];
    dst[j] := c;
    assert dst[..j + 1] == before + [c];
  }

  /** Writes one byte, escaped if it must be. */
  method EncodeOne(c: byte, dst: array<byte>, j: nat, end: nat) returns (j': nat)
    requires j < end < dst.Length
    modifies dst
    ensures j' == j + |WrittenByte(c, old(dst[j..end]))| && forall k :: j' <= k < dst.Length ==> dst[k] == old(dst[k])
    ensures dst[..j'] == old(dst[..j]) + WrittenByte(c, old(dst[j..end]))
  {
    var listed := Strchr(DONT_ESCAPE, c);
    j' := j;
    EncodedForm(c);
    assert Plain(c) <==> IsAlnum(c) || listed;
    hide Plain, EncodedByte, Digit;
    ghost var before, next := dst[..j], dst[j];
    if IsAlnum(c) || listed {
      dst[j'] := c;
      assert dst[..j + 1] == before + [c];
    } else if j' + 2 < end {
      HexDigit(c / 16);
      HexDigit(c % 16);
      dst[j'] := PERCENT;
      dst[j' + 1] := HEX[c / 16] as int;
      dst[j' + 2] := HEX[c % 16] as int;
      assert dst[..j + 3] == before + [PERCENT, Digit(c / 16), Digit(c % 16)];
      j' := j' + 2;
    } else {
      assert dst[..j + 1] == before + [next];
    }
    j' := j' + 1;
  }

  /** Encodes a NUL-terminated src, and terminates what is written, at len. */
  method MgUrlEncode(src: seq<byte>, dst: array<byte>, dstLen: nat) returns (ghost len: nat)
    requires 0 !in src && 1 <= dstLen <= dst.Length
    modifies dst
    ensures len < dstLen && dst[..len] == Written(src, old(dst[..dstLen - 1]))
    ensures dst[len] == 0 && dst[len + 1..] == old(dst[len + 1..])
    ensures |Encoded(src)| < dstLen ==> dst[..len] == Encoded(src)
  {
    hide Encoded, Written, WrittenByte;
    var end := dstLen - 1;
    ghost var all, was := dst[..], dst[..end];
    var i, j := 0, 0;
    assert src[0..] == src && was[0..] == was && dst[..0] == [];
    while i < |src| && j < end
      invariant 0 <= i <= |src| && 0 <= j <= end && forall k :: j <= k < dst.Length ==> dst[k] == all[k]
      invariant Written(src, was) == dst[..j] + Written(src[i..], was[j..])
    {
      WrittenStep(dst[..j], src, i, was, j);
      assert dst[j..end] == was[j..];
      j := EncodeOne(src[i], dst, j, end);
      i := i + 1;
    }
    NothingWritten(src[i..], was[j..]);
    len := j;
    assert dst[..j] == Written(src, was);
    PutByte(dst, j, 0);
    assert dst[j] == dst[..j + 1][j] && dst[j + 1..] == all[j + 1..];
    WrittenIfItFits(src, was);
  }

  /** What is written for a byte that needs writing: its code. An escape that does not fit is not written,
      but a place is passed over all the same. */
  function WrittenByte(c: byte, was: seq<byte>): (w: seq<byte>)
    requires was != []
    ensures 0 < |w| <= |was|
  {
    if Plain(c) || |was| > 2 then EncodedByte(c) else [was[0]]
  }

  /** What a text leaves in the places that were there for it. */
  function Written(src: seq<byte>, was: seq<byte>): (w: seq<byte>)
    ensures |w| <= |was|
  {
    if src == [] || was == [] then []
    else
      var w := WrittenByte(src[0], was);
      w + Written(src[1..], was[|w|..])
  }

  /** A text is written whole if there are places enough. */
  lemma {:induction false} WrittenIfItFits(src: seq<byte>, was: seq<byte>)
    requires 0 !in src
    ensures |Encoded(src)| <= |was| ==> Written(src, was) == Encoded(src)
  {
    if src != [] && |Encoded(src)| <= |was| {
      assert |Encoded(src)| == |EncodedByte(src[0])| + |Encoded(src[1..])|;
      WrittenIfItFits(src[1..], was[|EncodedByte(src[0])|..]);
    }
  }

  /** The places keep what they held, except where the byte needs no escape. */
  ghost predicate Patched(w: seq<byte>, src: seq<byte>, was: seq<byte>) {
    && |w| <= |src| && |w| <= |was| <= 2
    && forall k :: 0 <= k < |w| ==> w[k] == if Plain(src[k]) then src[k] else was[k]
  }

  /** The longest beginning of the text that fits is written whole. At most two places are left behind it. */
  lemma {:induction false} WrittenSoFar(src: seq<byte>, was: seq<byte>) returns (n: nat)
    ensures n <= |src| && |Encoded(src[..n])| <= |was|
    ensures n < |src| ==> |Encoded(src[..n])| + |EncodedByte(src[n])| > |was|
    ensures var m := |Encoded(src[..n])|;
            && Written(src, was) == Encoded(src[..n]) + Written(src[n..], was[m..])
            && (n == |src| || Patched(Written(src[n..], was[m..]), src[n..], was[m..]))
  {
    hide Plain, EncodedByte, Encoded, Written, Patched;
    if src == [] {
      n := 0;
      NothingCut(src, was);
    } else if |EncodedByte(src[0])| <= |was| {
      FirstWritten(src, was);
      var rest, was' := src[1..], was[|EncodedByte(src[0])|..];
      var n' := WrittenSoFar(rest, was');
      n := n' + 1;
      Longer(src, was, n');
    } else {
      n := 0;
      NothingCut(src, was);
      LastPlaces(src, was);
    }
  }

  lemma NothingCut(src: seq<byte>, was: seq<byte>)
    ensures Encoded(src[..0]) == [] && src[0..] == src && was[0..] == was
  {}

  lemma FirstWritten(src: seq<byte>, was: seq<byte>)
    requires src != [] && |EncodedByte(src[0])| <= |was|
    ensures Written(src, was) == EncodedByte(src[0]) + Written(src[1..], was[|EncodedByte(src[0])|..])
  {
    hide Plain;
    EncodedForm(src[0]);
  }

  lemma Longer(src: seq<byte>, was: seq<byte>, n: nat)
    requires src != [] && |EncodedByte(src[0])| <= |was| && n <= |src[1..]|
    ensures Encoded(src[..n + 1]) == EncodedByte(src[0]) + Encoded(src[1..][..n])
    ensures src[n + 1..] == src[1..][n..]
    ensures |Encoded(src[..n + 1])| <= |was| ==>
              was[|Encoded(src[..n + 1])|..] == was[|EncodedByte(src[0])|..][|Encoded(src[1..][..n])|..]
  {
    hide EncodedByte;
    assert src[..n + 1][1..] == src[1..][..n];
  }

  lemma LastPlaces(src: seq<byte>, was: seq<byte>)
    requires src != [] && |EncodedByte(src[0])| > |was|
    ensures Patched(Written(src, was), src, was)
  {
    hide Plain;
    if was != [] {
      EncodedForm(src[0]);
      if |src| > 1 && |was| > 1 {
        EncodedForm(src[1]);
        assert Written(src[1..], was[1..]) == WrittenByte(src[1], was[1..]);
      } else {
        assert Written(src[1..], was[1..]) == [];
      }
    }
  }

  lemma NothingWritten(src: seq<byte>, was: seq<byte>)
    requires src == [] || was == []
    ensures Written(src, was) == []
  {}

  lemma WrittenStep(done: seq<byte>, src: seq<byte>, i: nat, was: seq<byte>, j: nat)
    requires i < |src| && j < |was|
    ensures var w := WrittenByte(src[i], was[j..]);
            done + Written(src[i..], was[j..]) == done + w + Written(src[i + 1..], was[j + |w|..])
  {
    hide WrittenByte;
    var w := WrittenByte(src[i], was[j..]);
    assert src[i..][1..] == src[i + 1..] && was[j..][|w|..] == was[j + |w|..];
    assert done + (w + Written(src[i + 1..], was[j + |w|..])) == done + w + Written(src[i + 1..], was[j + |w|..]);
  }

  /** The byte at i, and the place of the last one it was decoded from. */
  method DecodeOne(src: array<byte>, i: nat, srcLen: nat, isFormUrlEncoded: bool) returns (c: byte, i': nat)
    requires i < srcLen <= src.Length
    ensures c == DecodedByte(src[i..srcLen], isFormUrlEncoded) && i' + 1 == i + Width(src[i..srcLen]) && i' < srcLen
  {
    if src[i] == PERCENT && i < srcLen - 2 && IsHexDigit(src[i + 1]) && IsHexDigit(src[i + 2]) {
      var a, b := ToLower(src[i + 1]), ToLower(src[i + 2]);
      return HexToI(a) * 16 + HexToI(b), i + 2;
    } else if isFormUrlEncoded && src[i] == PLUS {
      return SPACE, i;
    } else {
      return src[i], i;
    }
  }

  /** Decodes the first srcLen bytes of src. The buffers may be the same one. What is behind the terminator
      stays. */
  method MgUrlDecode(src: array<byte>, srcLen: nat, dst: array<byte>, dstLen: nat, isFormUrlEncoded: bool)
    returns (res: int)
    requires srcLen <= src.Length && 1 <= dstLen <= dst.Length
    modifies dst
    ensures var d := Decoded(old(src[..srcLen]), isFormUrlEncoded);
            if |d| < dstLen then res == |d| && dst[..|d| + 1] == d + [0]
            else res == -1 && dst[..dstLen] == d[..dstLen - 1] + [0]
    ensures var d := Decoded(old(src[..srcLen]), isFormUrlEncoded);
            var n := if |d| < dstLen then |d| + 1 else dstLen;
            dst[n..] == old(dst[n..])
  {
    hide Decoded, DecodedByte, Width;
    var i, j := 0, 0;
    ghost var text, was := src[..srcLen], dst[..];
    ghost var d := Decoded(text, isFormUrlEncoded);
    NothingDecoded(text, dst[..0], isFormUrlEncoded);
    while i < srcLen && j < dstLen - 1
      invariant 0 <= j <= i <= srcLen && j < dstLen && src[i..srcLen] == text[i..]
      invariant d == dst[..j] + Decoded(text[i..], isFormUrlEncoded)
      invariant forall k :: j <= k < dst.Length ==> dst[k] == was[k]
    {
      DecodedStep(dst[..j], text, i, isFormUrlEncoded);
      Behind(text, i, Width(text[i..]));
      i := DecodeNext(src, i, srcLen, dst, j, isFormUrlEncoded);
      i, j := i + 1, j + 1;
    }
    ghost var done := dst[..j];
    DecodedEnd(done, text, i, isFormUrlEncoded);
    assert if i == srcLen then d == done else |d| > j == dstLen - 1 && d[..j] == done;
    PutByte(dst, j, 0);
    assert dst[..j + 1] == done + [0] && if i == srcLen then |d| == j else |d| >= dstLen == j + 1;
    assert dst[j + 1..] == was[j + 1..];
    return if i >= srcLen then j else -1;
  }

  lemma Behind(text: seq<byte>, i: nat, w: nat)
    requires i + w <= |text|
    ensures text[i..][w..] == text[i + w..]
  {}

  /** Puts the next decoded byte in its place, which is never behind the bytes still to be read. */
  method DecodeNext(src: array<byte>, i: nat, srcLen: nat, dst: array<byte>, j: nat, form: bool) returns (i': nat)
    requires j <= i < srcLen <= src.Length && j < dst.Length
    modifies dst
    ensures var s := old(src[i..srcLen]);
            && i' + 1 == i + Width(s) <= srcLen && src[i' + 1..srcLen] == s[Width(s)..]
            && dst[..j + 1] == old(dst[..j]) + [DecodedByte(s, form)]
    ensures forall k :: j < k < dst.Length ==> dst[k] == old(dst[k])
  {
    hide DecodedByte;
    ghost var s := src[i..srcLen];
    var c;
    c, i' := DecodeOne(src, i, srcLen, form);
    assert src[i' + 1..srcLen] == s[Width(s)..];
    hide Width;
    PutByte(dst, j, c);
  }

  lemma NothingDecoded(s: seq<byte>, done: seq<byte>, form: bool)
    requires done == []
    ensures s[0..] == s && done + Decoded(s, form) == Decoded(s, form)
  {}

  lemma DecodedStep(done: seq<byte>, s: seq<byte>, i: nat, form: bool)
    requires i < |s|
    ensures i + Width(s[i..]) <= |s|
    ensures done + Decoded(s[i..], form) == done + [DecodedByte(s[i..], form)] + Decoded(s[i + Width(s[i..])..], form)
  {
    var w := Width(s[i..]);
    assert s[i..][w..] == s[i + w..];
    hide DecodedByte;
    assert done + ([DecodedByte(s[i..], form)] + Decoded(s[i + w..], form)) ==
           done + [DecodedByte(s[i..], form)] + Decoded(s[i + w..], form);
  }

  lemma DecodedEnd(done: seq<byte>, s: seq<byte>, i: nat, form: bool)
    requires i <= |s|
    ensures i == |s| ==> done + Decoded(s[i..], form) == done
    ensures i < |s| ==> |done + Decoded(s[i..], form)| > |done|
  {}

  function ToLower(c: byte): byte {
    if 'A' as int <= c <= 'Z' as int then c + 32 else c
  }

  /** The HEXTOI macro, for a lower-case digit. */
  function HexToI(x: byte): (d: int)
    requires IsDigit(x) || 'a' as int <= x <= 'f' as int
    ensures d == HexValue(x)
  {
    if IsDigit(x) then x - '0' as int else x - 'W' as int
  }

  lemma {:induction false} DecodedIsNoLonger(s: seq<byte>, form: bool)
    ensures |Decoded(s, form)| <= |s|
  {
    if s != [] {
      DecodedIsNoLonger(s[Width(s)..], form);
    }
  }

  /** The address of a request is decoded in place, and always fits. */
  method DecodeUri(uri: array<byte>, uriLen: nat) returns (len: nat)
    requires uriLen < uri.Length
    modifies uri
    ensures len <= uriLen && uri[..len + 1] == Decoded(old(uri[..uriLen]), false) + [0]
    ensures uri[len + 1..] == old(uri[len + 1..])
  {
    DecodedIsNoLonger(uri[..uriLen], false);
    len := MgUrlDecode(uri, uriLen, uri, uriLen + 1, false);
  }
}
