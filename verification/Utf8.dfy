// UTF-8 as RFC 3629 defines it: the encoder, the length check shared by the
// printer and the DOM parser, and the tail check of the SAX parser.
// Shifts and masks of the program are written as division and remainder.

module Utf8 {
  import opened JsonValue

  // A Unicode scalar value: a code point that is not a surrogate.
  predicate Scalar(cp: int) {
    0 <= cp <= 0x10FFFF && !(0xD800 <= cp <= 0xDFFF)
  }

  // appendUtf8()
  function Encode(cp: nat): (b: Bytes)
    requires cp <= 0x10FFFF
    ensures 1 <= |b| <= 4
  {
    if cp <= 0x7F then [cp]
    else if cp <= 0x7FF then [0xC0 + cp / 0x40, 0x80 + cp % 0x40]
    else if cp <= 0xFFFF then [0xE0 + cp / 0x1000, 0x80 + cp / 0x40 % 0x40, 0x80 + cp % 0x40]
    else [0xF0 + cp / 0x40000, 0x80 + cp / 0x1000 % 0x40, 0x80 + cp / 0x40 % 0x40, 0x80 + cp % 0x40]
  }

  predicate Continues(b: Byte) {
    0x80 <= b < 0xC0
  }

  // What the lead byte announces: sequence length, its own payload bits, and
  // the least code point that needs that length.
  datatype LeadByte = LeadByte(length: nat, bits: nat, least: nat)

  function LeadOf(b: Byte): (r: LeadByte)
    ensures r.length <= 4
  {
    if b < 0x80 then LeadByte(1, b, 0)
    else if 0xC0 <= b < 0xE0 then LeadByte(2, b - 0xC0, 0x80)
    else if 0xE0 <= b < 0xF0 then LeadByte(3, b - 0xE0, 0x800)
    else if 0xF0 <= b < 0xF8 then LeadByte(4, b - 0xF0, 0x10000)
    else LeadByte(0, 0, 0)
  }

  // The payload of the first n bytes, if the later ones continue a sequence.
  function Payload(s: Bytes, n: nat): (cp: Option<nat>)
    requires 1 <= n <= |s|
    decreases n
  {
    if n == 1 then Some(LeadOf(s[0]).bits)
    else match Payload(s, n - 1)
      case None => None
      case Some(cp) => if Continues(s[n - 1]) then Some(cp * 0x40 + (s[n - 1] - 0x80)) else None
  }

  lemma {:induction false} PayloadPrefix(s: Bytes, t: Bytes, n: nat)
    requires 1 <= n <= |s| && n <= |t| && s[..n] == t[..n]
    ensures Payload(s, n) == Payload(t, n)
    decreases n
  {
    assert s[..n][0] == t[..n][0] && s[..n][n - 1] == t[..n][n - 1];
    if n > 1 {
      assert s[..n - 1] == s[..n][..n - 1] && t[..n - 1] == t[..n][..n - 1];
      PayloadPrefix(s, t, n - 1);
    }
  }

  predicate Acceptable(cp: nat, lead: LeadByte) {
    cp >= lead.least && Scalar(cp)
  }

  // The length of the encoded scalar value that s starts with, or 0.
  function CharLen(s: Bytes): (n: nat)
    requires s != []
    ensures n <= 4 && n <= |s|
  {
    var lead := LeadOf(s[0]);
    if lead.length == 0 || lead.length > |s| then 0
    else match Payload(s, lead.length)
      case None => 0
      case Some(cp) => if Acceptable(cp, lead) then lead.length else 0
  }

  function CharAt(s: Bytes): (cp: nat)
    requires s != [] && CharLen(s) > 0
    ensures Scalar(cp)
  {
    Payload(s, CharLen(s)).value
  }

  // ---- The check is exactly "starts with an encoded scalar value" ----

  lemma SixBits(x: nat, d: nat)
    requires d < 0x40
    ensures (x * 0x40 + d) / 0x40 == x && (x * 0x40 + d) % 0x40 == d
  {
  }

  lemma Shifts(cp: nat)
    ensures cp / 0x1000 == cp / 0x40 / 0x40 && cp / 0x40000 == cp / 0x1000 / 0x40
    ensures cp == cp / 0x40 * 0x40 + cp % 0x40
  {
  }

  lemma EncodeLead(cp: nat)
    requires Scalar(cp)
    ensures LeadOf(Encode(cp)[0]).length == |Encode(cp)|
    ensures LeadOf(Encode(cp)[0]).least <= cp
    ensures Payload(Encode(cp), |Encode(cp)|) == Some(cp)
  {
    hide Payload;
    var b := Encode(cp);
    var lead := LeadOf(b[0]);
    Shifts(cp);
    Shifts(cp / 0x40);
    PayloadIs(b, |b|);
  }

  // The payload written out, for each length.
  lemma PayloadIs(s: Bytes, n: nat)
    requires 1 <= n <= 4 && n <= |s|
    ensures Payload(s, n).Some? <==> forall i :: 1 <= i < n ==> Continues(s[i])
    ensures Payload(s, n).Some? ==>
      var first := LeadOf(s[0]).bits;
      Payload(s, n).value == if n == 1 then first
        else if n == 2 then first * 0x40 + (s[1] - 0x80)
        else if n == 3 then (first * 0x40 + (s[1] - 0x80)) * 0x40 + (s[2] - 0x80)
        else ((first * 0x40 + (s[1] - 0x80)) * 0x40 + (s[2] - 0x80)) * 0x40 + (s[3] - 0x80)
  {
    hide LeadOf;
    if n > 1 { PayloadIs(s, n - 1); }
  }

  lemma EncodedIsAccepted(cp: nat, rest: Bytes)
    requires Scalar(cp)
    ensures var s := Encode(cp) + rest;
            CharLen(s) == |Encode(cp)| && CharAt(s) == cp
  {
    var s := Encode(cp) + rest;
    EncodeLead(cp);
    assert s[0] == Encode(cp)[0];
    assert s[..|Encode(cp)|] == Encode(cp);
    assert Encode(cp)[..|Encode(cp)|] == Encode(cp);
    PayloadPrefix(s, Encode(cp), |Encode(cp)|);
  }

  lemma AcceptedIsEncoded(s: Bytes)
    requires s != [] && CharLen(s) > 0
    ensures s[..CharLen(s)] == Encode(CharAt(s))
  {
    hide Payload;
    var n := CharLen(s);
    var cp := CharAt(s);
    var x := LeadOf(s[0]).bits;
    PayloadIs(s, n);
    if n > 1 { SixBits(x, s[1] - 0x80); }
    if n > 2 { SixBits(x * 0x40 + (s[1] - 0x80), s[2] - 0x80); }
    if n > 3 { SixBits((x * 0x40 + (s[1] - 0x80)) * 0x40 + (s[2] - 0x80), s[3] - 0x80); }
    Shifts(cp);
    Shifts(cp / 0x40);
    EncodeLength(cp, n, LeadOf(s[0]));
  }

  // The length check of a lead pins the encoder's branch.
  lemma EncodeLength(cp: nat, n: nat, lead: LeadByte)
    requires Scalar(cp) && lead.least <= cp && lead.length == n
    requires n == 1 ==> cp < 0x80
    requires n == 2 ==> lead.least == 0x80 && cp < 0x800
    requires n == 3 ==> lead.least == 0x800 && cp < 0x10000
    requires n == 4 ==> lead.least == 0x10000
    requires 1 <= n <= 4
    ensures |Encode(cp)| == n
  {
  }

  // Section 3 of RFC 3629 in one statement.
  lemma CharLenIff(s: Bytes, n: nat)
    requires s != [] && 0 < n <= |s|
    ensures CharLen(s) == n <==> exists cp: nat :: Scalar(cp) && Encode(cp) == s[..n]
  {
    if CharLen(s) == n { AcceptedIsEncoded(s); }
    if cp: nat :| Scalar(cp) && Encode(cp) == s[..n] {
      EncodedIsAccepted(cp, s[n..]);
      assert Encode(cp) + s[n..] == s;
    }
  }

  ghost predicate ValidUtf8(s: Bytes)
    decreases |s|
  {
    s == [] || (CharLen(s) > 0 && ValidUtf8(s[CharLen(s)..]))
  }

  lemma {:induction false} ValidAppend(s: Bytes, t: Bytes)
    requires ValidUtf8(s) && ValidUtf8(t)
    ensures ValidUtf8(s + t)
    decreases |s|
  {
    if s == [] {
      assert s + t == t;
    } else {
      CharLenAppend(s, t);
      assert (s + t)[CharLen(s)..] == s[CharLen(s)..] + t;
      ValidAppend(s[CharLen(s)..], t);
    }
  }

  lemma CharLenAppend(s: Bytes, t: Bytes)
    requires s != [] && CharLen(s) > 0
    ensures CharLen(s + t) == CharLen(s) && CharAt(s + t) == CharAt(s)
  {
    var n := CharLen(s);
    assert (s + t)[..n] == s[..n];
    PayloadPrefix(s + t, s, n);
  }

  lemma ValidChar(cp: nat)
    requires Scalar(cp)
    ensures ValidUtf8(Encode(cp))
  {
    EncodedIsAccepted(cp, []);
    assert Encode(cp) + [] == Encode(cp);
    assert Encode(cp)[|Encode(cp)|..] == [];
  }

  // ---- The loops ----

  // _utf8Len(): looks at the bytes of src from pos up to end.
  method Utf8Len(src: Bytes, pos: nat, end: nat) returns (n: nat)
    requires pos < end <= |src|
    ensures n == CharLen(src[pos..end])
  {
    ghost var s := src[pos..end];
    var lead := LeadOf(src[pos]);
    if lead.length == 0 || pos + lead.length > end { return 0; }
    var cp := lead.bits;
    var k := 1;
    while k < lead.length
      invariant 1 <= k <= lead.length
      invariant Payload(s, k) == Some(cp)
    {
      assert s[k] == src[pos + k];
      if !Continues(src[pos + k]) {
        PayloadStops(s, k + 1, lead.length);
        return 0;
      }
      cp := cp * 0x40 + (src[pos + k] - 0x80);
      k := k + 1;
    }
    n := if cp < lead.least then 0 else if cp > 0x10FFFF then 0 else if 0xD800 <= cp <= 0xDFFF then 0 else lead.length;
  }

  lemma {:induction false} PayloadStops(s: Bytes, k: nat, n: nat)
    requires 1 <= k <= n <= |s| && Payload(s, k) == None
    ensures Payload(s, n) == None
    decreases n - k
  {
    if k < n { PayloadStops(s, k, n - 1); }
  }

  lemma CharLenOf(s: Bytes)
    requires s != []
    ensures var lead := LeadOf(s[0]);
            && (lead.length == 0 || lead.length > |s| ==> CharLen(s) == 0)
            && (0 < lead.length <= |s| && Payload(s, lead.length) == None ==> CharLen(s) == 0)
            && (0 < lead.length <= |s| && Payload(s, lead.length).Some? ==>
                CharLen(s) == if Acceptable(Payload(s, lead.length).value, lead) then lead.length else 0)
  {
  }

  lemma PayloadStep(s: Bytes, k: nat)
    requires 1 <= k < |s|
    ensures Payload(s, 1) == Some(LeadOf(s[0]).bits)
    ensures Payload(s, k).Some? && Continues(s[k]) ==>
      Payload(s, k + 1) == Some(Payload(s, k).value * 0x40 + (s[k] - 0x80))
    ensures !Continues(s[k]) ==> Payload(s, k + 1) == None
  {
  }
}
