/** Sizing of ECH GREASE payloads the way NSS does: btls/src/ssl/ech_grease.rs. */
module EchGrease {
  import opened Basics

  newtype u16 = x: int | 0 <= x < 0x1_0000

  const TLS_EXTENSION_HEADER_LEN: nat := 4

  const SERVER_NAME: u16 := 0
  const EC_POINT_FORMATS: u16 := 11
  const EXTENDED_MASTER_SECRET: u16 := 23
  const SESSION_TICKET: u16 := 35
  const SUPPORTED_VERSIONS: u16 := 43
  const NSS_TICKET_EARLY_DATA_INFO: u16 := 46
  const PRE_SHARED_KEY: u16 := 41
  const KEY_SHARE: u16 := 51
  const RENEGOTIATE: u16 := 0xff01
  const ENCRYPTED_CLIENT_HELLO: u16 := 0xfe0d
  const ECH_OUTER_EXTENSIONS: u16 := 0xfd00

  datatype Rounding = NssPre3127 | Nss3127

  datatype Extension = Extension(kind: u16, length: nat)

  /** What the callback sees of the first ClientHello. */
  datatype SizeInfo = SizeInfo(
    cipherSuites: seq<byte>, extensions: seq<Extension>, pskLength: nat, serverNameLength: Option<nat>,
    aeadOverhead: nat, maxPayload: nat)

  /** A GREASE value of RFC 8701: two equal bytes with low nibble 0xA. */
  predicate IsGrease(kind: u16) {
    kind / 0x100 == kind % 0x100 && kind % 0x10 == 0xa
  }

  /** The sixteen values of RFC 8701, section 2. */
  lemma GreaseValues(kind: u16)
    ensures IsGrease(kind) <==> exists n: int :: 0 <= n < 16 && kind as int == 0x0a0a + n * 0x1010
  {
    if IsGrease(kind) {
      var n := (kind as int % 0x100) / 0x10;
      assert kind as int == 0x0a0a + n * 0x1010;
    }
  }

  /** Extensions the inner hello does not compress: it keeps them in full or drops them. */
  const UNCOMPRESSED: seq<u16> :=
    [SERVER_NAME, SUPPORTED_VERSIONS, EC_POINT_FORMATS, EXTENDED_MASTER_SECRET, SESSION_TICKET,
     NSS_TICKET_EARLY_DATA_INFO, RENEGOTIATE]

  // ----- An encoded inner hello -----

  /** The contents NSS would put into the inner hello. */
  datatype InnerHello = InnerHello(
    random: seq<byte>, ciphers: seq<byte>, host: Option<seq<byte>>, extensions: seq<Extension>, psk: seq<byte>)
  {
    predicate Valid() { |random| == 32 }

    /** What the callback sees of the outer hello it goes with. */
    function Info(aeadOverhead: nat, maxPayload: nat): SizeInfo {
      SizeInfo(ciphers, extensions, |psk|, if host.Some? then Some(|host.value|) else None, aeadOverhead, maxPayload)
    }
  }

  function U8(n: nat): (b: seq<byte>)
    ensures |b| == 1 && (n < 0x100 ==> b[0] as nat == n)
  {
    [(n % 0x100) as byte]
  }

  function U16(n: nat): (b: seq<byte>)
    ensures |b| == 2 && (n < 0x1_0000 ==> b[0] as nat * 0x100 + b[1] as nat == n)
  {
    [(n / 0x100 % 0x100) as byte, (n % 0x100) as byte]
  }

  /** A vector with a length prefix of one or two bytes. */
  function Vec8(body: seq<byte>): seq<byte> { U8(|body|) + body }

  function Vec16(body: seq<byte>): seq<byte> { U16(|body|) + body }

  function EncodeExtension(kind: u16, body: seq<byte>): seq<byte> { U16(kind as nat) + Vec16(body) }

  /** The extension types the inner hello refers to instead of repeating. */
  function OuterTypes(extensions: seq<Extension>): seq<u16> {
    if extensions == [] then [] else
      var rest := OuterTypes(extensions[..|extensions| - 1]);
      var kind := extensions[|extensions| - 1].kind;
      if kind in UNCOMPRESSED then rest else rest + [kind]
  }

  /** All but server_name, supported_versions and the types that only older versions or tickets use. */
  lemma OuterTypesStep(extensions: seq<Extension>, extension: Extension)
    ensures OuterTypes(extensions + [extension]) ==
            OuterTypes(extensions) +
            if extension.kind in {0, 11, 23, 35, 43, 46, 0xff01} then [] else [extension.kind]
  {
    assert (extensions + [extension])[..|extensions|] == extensions;
  }

  function EncodeTypes(kinds: seq<u16>): (b: seq<byte>)
    ensures |b| == 2 * |kinds|
  {
    if kinds == [] then [] else U16(kinds[0] as nat) + EncodeTypes(kinds[1..])
  }

  predicate Greased(extensions: seq<Extension>) {
    exists k :: 0 <= k < |extensions| && IsGrease(extensions[k].kind)
  }

  /** supported_versions: TLS 1.3, behind a GREASE version if GREASE extensions are sent. */
  function EncodeVersions(greased: bool): seq<byte> {
    Vec8((if greased then U16(0x0a0a) else []) + U16(0x0304))
  }

  function EncodeServerName(host: seq<byte>): seq<byte> { Vec16(U8(0) + Vec16(host)) }

  function EncodeExtensions(hello: InnerHello): seq<byte> {
    var outer := OuterTypes(hello.extensions);
    EncodeExtension(ENCRYPTED_CLIENT_HELLO, U8(1))
    + (if hello.host.Some? then EncodeExtension(SERVER_NAME, EncodeServerName(hello.host.value)) else [])
    + EncodeExtension(SUPPORTED_VERSIONS, EncodeVersions(Greased(hello.extensions)))
    + (if outer != [] then EncodeExtension(ECH_OUTER_EXTENSIONS, Vec8(EncodeTypes(outer))) else [])
    + (if hello.psk != [] then EncodeExtension(PRE_SHARED_KEY, hello.psk) else [])
  }

  /**
    EncodedClientHelloInner of RFC 9849, section 5.1, before padding: a ClientHello with an empty
    session ID, the null compression method and compressed extensions.
   */
  function Encode(hello: InnerHello): seq<byte> {
    U16(0x0303) + hello.random + Vec8([]) + Vec16(hello.ciphers) + Vec8(U8(0)) + Vec16(EncodeExtensions(hello))
  }

  // ----- The length rule -----

  /** Padding that brings a host name up to `maxNameLen`; the host length is cut to one byte. */
  function NamePadding(maxNameLen: byte, hostLen: nat): nat { Monus(maxNameLen as nat, hostLen % 0x100) }

  /** The least length from `len` on that the rounding allows. */
  ghost predicate IsRounded(rounding: Rounding, len: nat, rounded: nat) {
    && len <= rounded && rounded % 32 == Residue(rounding)
    && forall n :: len <= n < rounded ==> n % 32 != Residue(rounding)
  }

  function Residue(rounding: Rounding): nat { if rounding.NssPre3127? then 31 else 0 }

  /** Padding to the next multiple of 32, or to one less than one. */
  function Rounded(rounding: Rounding, len: nat): nat
    requires len > 0
  {
    len + 31 - match rounding case NssPre3127 => len % 32 case Nss3127 => (len - 1) % 32
  }

  lemma RoundedIsLeast(rounding: Rounding, len: nat)
    requires len > 0
    ensures IsRounded(rounding, len, Rounded(rounding, len))
  {
    var r := Rounded(rounding, len);
    assert r < len + 32;
  }

  /** A longer length rounds to the same exactly if the rounded length still covers it. */
  lemma RoundedSame(rounding: Rounding, len: nat, more: nat)
    requires len > 0
    ensures Rounded(rounding, len + more) == Rounded(rounding, len) <==> len + more <= Rounded(rounding, len)
  {
    RoundedIsLeast(rounding, len);
    RoundedIsLeast(rounding, len + more);
  }

  /** What rounding adds. */
  function Slack(rounding: Rounding, len: nat): (n: nat)
    requires len > 0
    ensures n < 32
  {
    Rounded(rounding, len) - len
  }

  lemma SlackParity(rounding: Rounding, len: nat)
    requires len > 0
    ensures Slack(rounding, len) % 2 == if len % 2 == Residue(rounding) % 2 then 0 else 1
  {
    var n := if rounding.NssPre3127? then len else len - 1;
    SlackIs(rounding, len);
    hide Slack;
    HalfOf32(n);
    OddLess(n % 32);
    OddLess(n);
  }

  lemma SlackIs(rounding: Rounding, len: nat)
    requires len > 0
    ensures Slack(rounding, len) == 31 - (if rounding.NssPre3127? then len else len - 1) % 32
  {
  }

  lemma OddLess(n: nat)
    ensures (31 - n) % 2 == 1 - n % 2 && (n + 1) % 2 == 1 - n % 2
  {
  }

  lemma HalfOf32(n: nat)
    ensures n % 32 % 2 == n % 2
  {
    var q := n / 32;
    assert n == 2 * (16 * q) + n % 32;
  }

  lemma SlackFills(rounding: Rounding, len: nat, more: nat)
    requires len > 0 && more <= Slack(rounding, len)
    ensures Slack(rounding, len + more) == Slack(rounding, len) - more
  {
    RoundedSame(rounding, len, more);
  }

  lemma RoundedShift(rounding: Rounding, len: nat)
    requires len > 0
    ensures Rounded(rounding, len + 0x100) == Rounded(rounding, len) + 0x100
  {
  }

  /** An inner hello the callback cannot tell from any other with the same sizes. */
  function Sample(info: SizeInfo): (hello: InnerHello)
    ensures hello.Valid() && hello.Info(info.aeadOverhead, info.maxPayload) == info
  {
    InnerHello(seq(32, _ => 0), info.cipherSuites,
               if info.serverNameLength.Some? then Some(seq(info.serverNameLength.value, _ => 0)) else None,
               info.extensions, seq(info.pskLength, _ => 0))
  }

  /** The payload length: the encoded inner hello, its name padding, rounding, and the AEAD's expansion. */
  function PayloadLength(info: SizeInfo, maxNameLen: byte, hostLen: nat, rounding: Rounding): nat {
    Rounded(rounding, |Encode(Sample(info))| + NamePadding(maxNameLen, hostLen)) + info.aeadOverhead
  }

  lemma EncodedLength(hello: InnerHello)
    requires hello.Valid()
    ensures |Encode(hello)| ==
            41 + |hello.ciphers| + 5
            + (if hello.host.Some? then 9 + |hello.host.value| else 0)
            + (if Greased(hello.extensions) then 9 else 7)
            + (if OuterTypes(hello.extensions) != [] then 5 + 2 * |OuterTypes(hello.extensions)| else 0)
            + (if hello.psk != [] then 4 + |hello.psk| else 0)
  {
  }

  /**
    The length is a real encoding length: whatever the inner hello of this ClientHello holds, the
    payload is its encoding with the name padded, rounded up to the least length allowed.
   */
  lemma PayloadIsRoundedEncoding(hello: InnerHello, aeadOverhead: nat, maxPayload: nat,
                                 maxNameLen: byte, hostLen: nat, rounding: Rounding)
    requires hello.Valid()
    ensures var payload := PayloadLength(hello.Info(aeadOverhead, maxPayload), maxNameLen, hostLen, rounding);
            && payload >= aeadOverhead
            && IsRounded(rounding, |Encode(hello)| + NamePadding(maxNameLen, hostLen), payload - aeadOverhead)
  {
    hide Encode, Rounded;
    EncodedLength(hello);
    EncodedLength(Sample(hello.Info(aeadOverhead, maxPayload)));
    RoundedIsLeast(rounding, |Encode(hello)| + NamePadding(maxNameLen, hostLen));
  }

  // ----- What the length hides -----

  lemma {:induction false} OuterTypesConcat(a: seq<Extension>, b: seq<Extension>)
    ensures OuterTypes(a + b) == OuterTypes(a) + OuterTypes(b)
  {
    if b == [] {
      assert a + b == a;
    } else {
      OuterTypesConcat(a, b[..|b| - 1]);
      assert (a + b)[..|a + b| - 1] == a + b[..|b| - 1];
    }
  }

  /** Permuting the extensions neither adds nor removes references. */
  lemma {:induction false} OuterCountPermuted(a: seq<Extension>, b: seq<Extension>)
    requires multiset(a) == multiset(b)
    ensures |OuterTypes(a)| == |OuterTypes(b)|
    decreases |a|
  {
    if a == [] {
      assert |multiset(b)| == 0;
    } else {
      var last := a[|a| - 1];
      assert last in multiset(b);
      var j :| 0 <= j < |b| && b[j] == last;
      var front, back := b[..j], b[j + 1..];
      assert b == front + [last] + back;
      assert a == a[..|a| - 1] + [last];
      assert multiset(a[..|a| - 1]) == multiset(a) - multiset{last};
      assert multiset(front + back) == multiset(b) - multiset{last};
      OuterCountPermuted(a[..|a| - 1], front + back);
      OuterTypesConcat(front, back);
      OuterTypesConcat(front + [last], back);
      OuterTypesConcat(front, [last]);
      OuterTypesConcat(a[..|a| - 1], [last]);
    }
  }

  lemma GreasedPermuted(a: seq<Extension>, b: seq<Extension>)
    requires multiset(a) == multiset(b) && Greased(a)
    ensures Greased(b)
  {
    var k :| 0 <= k < |a| && IsGrease(a[k].kind);
    assert a[k] in multiset(b);
    var j :| 0 <= j < |b| && b[j] == a[k];
  }

  /** The length does not show the order of the extensions. */
  lemma PayloadHidesOrder(info: SizeInfo, extensions: seq<Extension>, maxNameLen: byte, hostLen: nat,
                          rounding: Rounding)
    requires multiset(extensions) == multiset(info.extensions)
    ensures PayloadLength(info.(extensions := extensions), maxNameLen, hostLen, rounding) ==
            PayloadLength(info, maxNameLen, hostLen, rounding)
  {
    hide Encode, Rounded;
    EncodedLength(Sample(info));
    EncodedLength(Sample(info.(extensions := extensions)));
    OuterCountPermuted(extensions, info.extensions);
    if Greased(extensions) { GreasedPermuted(extensions, info.extensions); }
    if Greased(info.extensions) { GreasedPermuted(info.extensions, extensions); }
  }

  /** The payload length of a ClientHello whose SNI holds the `hostLen` bytes of the URL's host. */
  function NamedPayload(info: SizeInfo, maxNameLen: byte, hostLen: nat, rounding: Rounding): nat {
    PayloadLength(info.(serverNameLength := Some(hostLen)), maxNameLen, hostLen, rounding)
  }

  /** The length to round when a name takes just `maxNameLen` bytes with its padding. */
  function PaddedLength(info: SizeInfo, maxNameLen: byte): (len: nat)
    ensures len > 0
  {
    |Encode(Sample(info.(serverNameLength := Some(0))))| + maxNameLen as nat
  }

  lemma NamedPayloadLength(info: SizeInfo, maxNameLen: byte, hostLen: nat, rounding: Rounding)
    ensures hostLen + NamePadding(maxNameLen, hostLen) >= maxNameLen as nat
    ensures var excess := hostLen + NamePadding(maxNameLen, hostLen) - maxNameLen as nat;
            && (excess == 0 <==> hostLen <= maxNameLen as nat)
            && NamedPayload(info, maxNameLen, hostLen, rounding) ==
               Rounded(rounding, PaddedLength(info, maxNameLen) + excess) + info.aeadOverhead
  {
    hide Encode, Rounded;
    EncodedLength(Sample(info.(serverNameLength := Some(hostLen))));
    EncodedLength(Sample(info.(serverNameLength := Some(0))));
  }

  /** Host names that fit the padding all give the same length. */
  lemma PayloadHidesShortNames(info: SizeInfo, a: nat, b: nat, maxNameLen: byte, rounding: Rounding)
    requires a <= maxNameLen as nat && b <= maxNameLen as nat
    ensures NamedPayload(info, maxNameLen, a, rounding) == NamedPayload(info, maxNameLen, b, rounding)
  {
    hide NamedPayload, PaddedLength, Rounded;
    NamedPayloadLength(info, maxNameLen, a, rounding);
    NamedPayloadLength(info, maxNameLen, b, rounding);
  }

  /**
    In one ClientHello a name gives the length of an empty one exactly if what it takes beyond the
    padding fits below the next rounded length.
   */
  lemma NameHiddenIff(info: SizeInfo, maxNameLen: byte, hostLen: nat, rounding: Rounding)
    ensures var len := PaddedLength(info, maxNameLen);
            NamedPayload(info, maxNameLen, hostLen, rounding) == NamedPayload(info, maxNameLen, 0, rounding) <==>
            len + (hostLen + NamePadding(maxNameLen, hostLen) - maxNameLen as nat) <= Rounded(rounding, len)
  {
    hide NamedPayload, PaddedLength, Rounded;
    NamedPayloadLength(info, maxNameLen, hostLen, rounding);
    NamedPayloadLength(info, maxNameLen, 0, rounding);
    RoundedSame(rounding, PaddedLength(info, maxNameLen),
                hostLen + NamePadding(maxNameLen, hostLen) - maxNameLen as nat);
  }

  // ----- For which names no ClientHello tells -----

  predicate Lists(info: SizeInfo, kind: u16) {
    exists k :: 0 <= k < |info.extensions| && info.extensions[k].kind == kind
  }

  /**
    A ClientHello a TLS 1.3 client can send: two bytes to a cipher suite, the mandatory extensions, SNI
    listed with its host, and a PSK extension, if any, with at least one identity and one binder
    (RFC 8446, sections 4.1.2, 4.2.11 and 9.2).
   */
  predicate Real(info: SizeInfo) {
    && |info.cipherSuites| > 0 && |info.cipherSuites| % 2 == 0
    && Lists(info, KEY_SHARE) && Lists(info, SUPPORTED_VERSIONS)
    && (info.serverNameLength.Some? <==> Lists(info, SERVER_NAME))
    && (info.pskLength == 0 || info.pskLength >= MIN_PSK)
  }

  /** Lists of one identity of a byte and one binder of 32. */
  const MIN_PSK: nat := (2 + 2 + 1 + 4) + (2 + 1 + 32)

  /** The least ClientHello, as far as sizes go. */
  function Least(named: bool): (info: SizeInfo)
    ensures Real(info) && info.pskLength == 0 && (info.serverNameLength.Some? <==> named)
  {
    var always := [Extension(KEY_SHARE, 38), Extension(SUPPORTED_VERSIONS, 3)];
    var extensions := if named then always + [Extension(SERVER_NAME, 6)] else always;
    assert extensions[0].kind == KEY_SHARE && extensions[1].kind == SUPPORTED_VERSIONS;
    assert named ==> extensions[2].kind == SERVER_NAME;
    SizeInfo([0x13, 0x01], extensions, 0, if named then Some(1) else None, 0, 0)
  }

  lemma HasOuterTypes(extensions: seq<Extension>, k: nat)
    requires k < |extensions| && extensions[k].kind !in UNCOMPRESSED
    ensures OuterTypes(extensions) != []
  {
    if k < |extensions| - 1 {
      HasOuterTypes(extensions[..|extensions| - 1], k);
    }
  }

  /** Without PSK the encoding of a real ClientHello is of one parity; the host counts in full. */
  lemma EncodedParity(info: SizeInfo)
    requires Real(info) && info.pskLength == 0
    ensures var host := if info.serverNameLength.Some? then 9 + info.serverNameLength.value else 0;
            (|Encode(Sample(info))| - host) % 2 == 0
  {
    hide Encode;
    EncodedLength(Sample(info));
    var k :| 0 <= k < |info.extensions| && info.extensions[k].kind == KEY_SHARE;
    HasOuterTypes(info.extensions, k);
  }

  /** The least slack of a padded name in a full handshake: its length has the parity of `maxNameLen + 1`. */
  function MinSlack(maxNameLen: byte, rounding: Rounding): nat {
    if (maxNameLen as nat + 1) % 2 == Residue(rounding) % 2 then 0 else 1
  }

  lemma FullHandshakeSlack(info: SizeInfo, maxNameLen: byte, rounding: Rounding)
    requires Real(info) && info.serverNameLength.Some? && info.pskLength == 0
    ensures var slack := Slack(rounding, PaddedLength(info, maxNameLen));
            slack >= MinSlack(maxNameLen, rounding) && slack % 2 == MinSlack(maxNameLen, rounding)
  {
    hide Encode, Real, Slack;
    assert Real(info.(serverNameLength := Some(0))) by { RealAnyName(info, 0); }
    EncodedParity(info.(serverNameLength := Some(0)));
    SlackParity(rounding, PaddedLength(info, maxNameLen));
  }

  lemma RealAnyName(info: SizeInfo, hostLen: nat)
    requires Real(info) && info.serverNameLength.Some?
    ensures Real(info.(serverNameLength := Some(hostLen)))
  {
    var renamed := info.(serverNameLength := Some(hostLen));
    assert renamed.extensions == info.extensions;
    assert forall kind :: Lists(renamed, kind) == Lists(info, kind);
  }

  /** Longer cipher lists and longer PSK extensions lengthen the encoding byte by byte. */
  lemma Lengthened(info: SizeInfo, ciphers: seq<byte>, pskLength: nat)
    requires |ciphers| >= |info.cipherSuites| && pskLength >= info.pskLength
    requires pskLength == 0 || info.pskLength > 0
    ensures |Encode(Sample(info.(cipherSuites := ciphers, pskLength := pskLength)))| ==
            |Encode(Sample(info))| + (|ciphers| - |info.cipherSuites|) + (pskLength - info.pskLength)
  {
    hide Encode;
    EncodedLength(Sample(info));
    EncodedLength(Sample(info.(cipherSuites := ciphers, pskLength := pskLength)));
  }

  /** A full handshake with the least slack, by its cipher list. */
  function TightFull(maxNameLen: byte, rounding: Rounding): SizeInfo {
    var slack := Slack(rounding, PaddedLength(Least(true), maxNameLen));
    Least(true).(cipherSuites := seq(2 + slack / 2 * 2, _ => 0x13))
  }

  lemma TightFullSlack(maxNameLen: byte, rounding: Rounding)
    ensures var info := TightFull(maxNameLen, rounding);
            && Real(info) && info.serverNameLength.Some? && info.pskLength == 0
            && Slack(rounding, PaddedLength(info, maxNameLen)) == MinSlack(maxNameLen, rounding)
  {
    hide Encode, Rounded, Slack;
    var base, info := Least(true), TightFull(maxNameLen, rounding);
    assert Real(info) by {
      assert forall kind :: Lists(info, kind) == Lists(base, kind);
    }
    var len := PaddedLength(base, maxNameLen);
    FullHandshakeSlack(base, maxNameLen, rounding);
    Lengthened(base.(serverNameLength := Some(0)), info.cipherSuites, 0);
    SlackFills(rounding, len, Slack(rounding, len) / 2 * 2);
  }

  /** A resumption whose PSK extension takes up the slack of the encoding with `more` bytes added. */
  function TightResumed(named: bool, more: nat, rounding: Rounding): SizeInfo {
    var base := Least(named).(pskLength := MIN_PSK);
    var sized := if named then base.(serverNameLength := Some(0)) else base;
    base.(pskLength := MIN_PSK + Slack(rounding, |Encode(Sample(sized))| + more))
  }

  lemma TightResumedSlack(named: bool, more: nat, rounding: Rounding)
    ensures var info := TightResumed(named, more, rounding);
            var sized := if named then info.(serverNameLength := Some(0)) else info;
            && Real(info) && (info.serverNameLength.Some? <==> named)
            && |Encode(Sample(sized))| + more > 0
            && Slack(rounding, |Encode(Sample(sized))| + more) == 0
  {
    hide Encode, Rounded, Slack;
    var base, info := Least(named).(pskLength := MIN_PSK), TightResumed(named, more, rounding);
    assert Real(info) by {
      assert forall kind :: Lists(info, kind) == Lists(Least(named), kind);
    }
    var sized := if named then base.(serverNameLength := Some(0)) else base;
    var len := |Encode(Sample(sized))| + more;
    EncodedLength(Sample(sized));
    Lengthened(sized, sized.cipherSuites, info.pskLength);
    SlackFills(rounding, len, Slack(rounding, len));
  }

  /** In every real ClientHello a name gives the length of an empty one exactly if it fits the padding. */
  lemma NameHiddenIffShort(maxNameLen: byte, hostLen: nat, rounding: Rounding)
    ensures (forall info | Real(info) && info.serverNameLength.Some? ::
               NamedPayload(info, maxNameLen, hostLen, rounding) == NamedPayload(info, maxNameLen, 0, rounding))
            <==> hostLen <= maxNameLen as nat
  {
    hide NamedPayload, Encode, Rounded, Real, TightResumed;
    if hostLen <= maxNameLen as nat {
      forall info | Real(info) && info.serverNameLength.Some?
        ensures NamedPayload(info, maxNameLen, hostLen, rounding) == NamedPayload(info, maxNameLen, 0, rounding)
      {
        PayloadHidesShortNames(info, hostLen, 0, maxNameLen, rounding);
      }
    } else {
      var info := TightResumed(true, maxNameLen as nat, rounding);
      TightResumedSlack(true, maxNameLen as nat, rounding);
      NameHiddenIff(info, maxNameLen, hostLen, rounding);
      NamedPayloadLength(info, maxNameLen, hostLen, rounding);
    }
  }

  /**
    Without PSK, parity leaves one byte of slack for one of the roundings: in every full handshake a name
    is hidden exactly if it exceeds the padding by no more than that.
   */
  lemma NameHiddenInFullHandshakes(maxNameLen: byte, hostLen: nat, rounding: Rounding)
    ensures (forall info | Real(info) && info.serverNameLength.Some? && info.pskLength == 0 ::
               NamedPayload(info, maxNameLen, hostLen, rounding) == NamedPayload(info, maxNameLen, 0, rounding))
            <==> hostLen <= maxNameLen as nat + if maxNameLen == 255 then 0 else MinSlack(maxNameLen, rounding)
  {
    hide NamedPayload, PaddedLength, Rounded, Real, TightFull;
    var excess := hostLen + NamePadding(maxNameLen, hostLen) - maxNameLen as nat;
    NamedPayloadLength(Least(true), maxNameLen, hostLen, rounding);
    if excess <= MinSlack(maxNameLen, rounding) {
      forall info | Real(info) && info.serverNameLength.Some? && info.pskLength == 0
        ensures NamedPayload(info, maxNameLen, hostLen, rounding) == NamedPayload(info, maxNameLen, 0, rounding)
      {
        NameHiddenIff(info, maxNameLen, hostLen, rounding);
        FullHandshakeSlack(info, maxNameLen, rounding);
      }
    } else {
      var info := TightFull(maxNameLen, rounding);
      TightFullSlack(maxNameLen, rounding);
      NameHiddenIff(info, maxNameLen, hostLen, rounding);
    }
  }

  /**
    Were the SNI to grow with the host beyond a byte, 256 bytes more would get the same padding and show in
    full: the host length the padding sees wraps.
   */
  lemma LongHostWraps(info: SizeInfo, maxNameLen: byte, hostLen: nat, rounding: Rounding)
    ensures NamedPayload(info, maxNameLen, hostLen + 0x100, rounding) ==
            NamedPayload(info, maxNameLen, hostLen, rounding) + 0x100
  {
    hide NamedPayload, PaddedLength, Rounded;
    NamedPayloadLength(info, maxNameLen, hostLen, rounding);
    NamedPayloadLength(info, maxNameLen, hostLen + 0x100, rounding);
    RoundedShift(rounding,
                 PaddedLength(info, maxNameLen) + hostLen + NamePadding(maxNameLen, hostLen) - maxNameLen as nat);
  }

  // ----- Without SNI -----

  /** Without SNI only the padding depends on the host: the shorter the host, the longer the payload may be. */
  lemma BareHiddenIff(info: SizeInfo, maxNameLen: byte, a: nat, b: nat, rounding: Rounding)
    requires NamePadding(maxNameLen, a) <= NamePadding(maxNameLen, b)
    ensures var len := |Encode(Sample(info))|;
            && len + NamePadding(maxNameLen, a) > 0
            && (PayloadLength(info, maxNameLen, a, rounding) == PayloadLength(info, maxNameLen, b, rounding) <==>
                len + NamePadding(maxNameLen, b) <= Rounded(rounding, len + NamePadding(maxNameLen, a)))
  {
    hide Encode, Rounded, NamePadding;
    EncodedLength(Sample(info));
    RoundedSame(rounding, |Encode(Sample(info))| + NamePadding(maxNameLen, a),
                NamePadding(maxNameLen, b) - NamePadding(maxNameLen, a));
  }

  /**
    No real ClientHello without SNI tells two hosts apart exactly if their lengths, cut to a byte and to the
    padding, are the same; so 256 bytes more never show.
   */
  lemma BareHostsAlike(maxNameLen: byte, a: nat, b: nat, rounding: Rounding)
    ensures (forall info | Real(info) && info.serverNameLength.None? ::
               PayloadLength(info, maxNameLen, a, rounding) == PayloadLength(info, maxNameLen, b, rounding))
            <==> Min(maxNameLen as nat, a % 0x100) == Min(maxNameLen as nat, b % 0x100)
  {
    hide Encode, Rounded, Real, TightResumed;
    if NamePadding(maxNameLen, a) > NamePadding(maxNameLen, b) {
      BareHostsApart(maxNameLen, b, a, rounding);
    } else if NamePadding(maxNameLen, a) < NamePadding(maxNameLen, b) {
      BareHostsApart(maxNameLen, a, b, rounding);
    }
  }

  lemma BareHostsApart(maxNameLen: byte, a: nat, b: nat, rounding: Rounding)
    requires NamePadding(maxNameLen, a) < NamePadding(maxNameLen, b)
    ensures exists info ::
              && Real(info) && info.serverNameLength.None?
              && PayloadLength(info, maxNameLen, a, rounding) != PayloadLength(info, maxNameLen, b, rounding)
  {
    hide Encode, Rounded, Real, TightResumed, PayloadLength, NamePadding;
    var info := TightResumed(false, NamePadding(maxNameLen, a), rounding);
    TightResumedSlack(false, NamePadding(maxNameLen, a), rounding);
    BareHiddenIff(info, maxNameLen, a, b, rounding);
  }

  // ----- The callers' operations -----

  /** Counts the extensions the inner hello refers to, and looks for GREASE. */
  method ScanExtensions(extensions: seq<Extension>) returns (compressed: nat, greaseVersion: bool)
    ensures compressed == |OuterTypes(extensions)|
    ensures greaseVersion == Greased(extensions)
  {
    compressed, greaseVersion := 0, false;
    for k := 0 to |extensions|
      invariant compressed == |OuterTypes(extensions[..k])|
      invariant greaseVersion == Greased(extensions[..k])
    {
      var kind := extensions[k].kind;
      assert extensions[..k + 1][..k] == extensions[..k];
      if IsGrease(kind) {
        greaseVersion := true;
        assert extensions[..k + 1][k].kind == kind;
      } else {
        assert Greased(extensions[..k + 1]) ==> Greased(extensions[..k]);
        assert forall j :: 0 <= j < k ==> extensions[..k][j] == extensions[..k + 1][j];
      }
      if kind !in UNCOMPRESSED {
        compressed := compressed + 1;
      }
    }
    assert extensions[..|extensions|] == extensions;
  }

  /** The payload length NSS would choose. */
  method NssPayloadLength(info: SizeInfo, maxNameLen: byte, hostLen: nat, rounding: Rounding) returns (payload: nat)
    ensures payload == PayloadLength(info, maxNameLen, hostLen, rounding)
  {
    hide Encode;
    EncodedLength(Sample(info));
    var len := 2 + 32 + 1 + 2 + |info.cipherSuites| + 1 + 1 + 2;
    len := len + TLS_EXTENSION_HEADER_LEN + 1;
    if info.serverNameLength.Some? {
      len := len + TLS_EXTENSION_HEADER_LEN + 5 + info.serverNameLength.value;
    }
    var compressed, greaseVersion := ScanExtensions(info.extensions);
    len := len + TLS_EXTENSION_HEADER_LEN + 3 + if greaseVersion then 2 else 0;
    if info.pskLength != 0 {
      len := len + TLS_EXTENSION_HEADER_LEN + info.pskLength;
    }
    if compressed != 0 {
      len := len + TLS_EXTENSION_HEADER_LEN + 1 + 2 * compressed;
    }
    len := len + NamePadding(maxNameLen, hostLen);
    var remainder := match rounding case NssPre3127 => len % 32 case Nss3127 => (len - 1) % 32;
    len := len + (31 - remainder);
    payload := len + info.aeadOverhead;
  }

  datatype Aead = Aes128Gcm | ChaCha20Poly1305

  datatype Parameters = Parameters(aead: Aead, payloadLength: nat, randomEnc: bool)

  /** A payload length as the extension can carry it: nonzero, of 16 bits, within the budget. */
  function CheckedPayloadLength(info: SizeInfo, len: nat): Option<nat> {
    if 0 < len < 0x1_0000 && len <= info.maxPayload then Some(len) else None
  }

  /** What drawing parameters comes to: it fails if random bytes run out, or the payload exceeds what can be sent. */
  datatype Drawn = Drawn(parameters: Parameters) | NoRandomness | OverBudget

  /** Parameters as BoringSSL draws them, with `draw` the random byte if there is one. */
  method BoringSslParameters(info: SizeInfo, aead: Aead, draw: Option<byte>) returns (r: Drawn)
    ensures r.NoRandomness? <==> draw.None?
    ensures r.Drawn? ==>
              && r.parameters.aead == aead && !r.parameters.randomEnc
              && Sendable(info, r.parameters.payloadLength)
              && r.parameters.payloadLength - info.aeadOverhead == DrawnSize(draw.value)
    ensures r.OverBudget? ==> !Sendable(info, DrawnSize(draw.value) + info.aeadOverhead)
  {
    if draw.None? {
      return NoRandomness;
    }
    var length := 32 * (4 + (draw.value % 4) as nat) + info.aeadOverhead;
    var checked := CheckedPayloadLength(info, length);
    r := if checked.Some? then Drawn(Parameters(aead, checked.value, false)) else OverBudget;
  }

  predicate Sendable(info: SizeInfo, len: nat) { len < 0x1_0000 && len <= info.maxPayload }

  /** BoringSSL's size for a random byte. */
  function DrawnSize(draw: byte): (size: nat)
    ensures size in {128, 160, 192, 224}
  {
    match draw % 4
    case 0 => 128
    case 1 => 160
    case 2 => 192
    case _ => 224
  }

  /** How many values below `n` leave the remainder `r`. */
  function Draws(n: nat, modulus: nat, r: nat): nat
    requires modulus > 0
  {
    if n == 0 then 0 else Draws(n - 1, modulus, r) + if (n - 1) % modulus == r then 1 else 0
  }

  lemma {:induction false} DrawsStep(n: nat, modulus: nat, r: nat, q: nat)
    requires r < modulus && q * modulus <= n <= (q + 1) * modulus
    ensures Draws(n, modulus, r) == Draws(q * modulus, modulus, r) + if n > q * modulus + r then 1 else 0
    decreases n
  {
    if n > q * modulus {
      DrawsStep(n - 1, modulus, r, q);
      RemainderAt(n - 1, modulus, q);
    }
  }

  lemma RemainderAt(n: nat, modulus: nat, q: nat)
    requires modulus > 0 && q * modulus <= n < (q + 1) * modulus
    ensures n % modulus == n - q * modulus
  {
    var p := n / modulus;
    assert n == p * modulus + n % modulus;
    MulStep(q, modulus);
    MulStep(p, modulus);
    if p < q { MulMono(p + 1, q, modulus); }
    if q < p { MulMono(q + 1, p, modulus); }
  }

  /** Each remainder is equally likely when the modulus divides the number of values. */
  lemma {:induction false} DrawsUniform(q: nat, modulus: nat, r: nat)
    requires r < modulus
    ensures Draws(q * modulus, modulus, r) == q
  {
    if q > 0 {
      DrawsUniform(q - 1, modulus, r);
      MulStep(q - 1, modulus);
      DrawsStep(q * modulus, modulus, r, q - 1);
    }
  }

  /** Of the 256 bytes, 64 draw each of BoringSSL's four sizes, and 128 each of NSS's two AEADs. */
  lemma DrawsAreFair(k: nat)
    ensures k < 4 ==> Draws(0x100, 4, k) == 64 && forall d :: DrawnSize(d) == 128 + 32 * k <==> d as nat % 4 == k
    ensures k < 2 ==> Draws(0x100, 2, k) == 128
  {
    if k < 4 { DrawsUniform(64, 4, k); }
    if k < 2 { DrawsUniform(128, 2, k); }
  }

  /** NSS-shaped parameters with `coin` the random byte, if there is one: the coin chooses the AEAD. */
  method NssParameters(info: SizeInfo, maxNameLen: byte, hostLen: nat, rounding: Rounding, coin: Option<byte>)
      returns (r: Drawn)
    ensures var payload := PayloadLength(info, maxNameLen, hostLen, rounding);
            if !Sendable(info, payload) then r.OverBudget?
            else if coin.None? then r.NoRandomness?
            else r == Drawn(Parameters(if coin.value % 2 == 1 then Aes128Gcm else ChaCha20Poly1305, payload, true))
  {
    var payload := NssPayloadLength(info, maxNameLen, hostLen, rounding);
    var checked := CheckedPayloadLength(info, payload);
    if checked.None? {
      EncodedLength(Sample(info));
      return OverBudget;
    }
    if coin.None? {
      return NoRandomness;
    }
    r := Drawn(Parameters(if coin.value % 2 == 1 then Aes128Gcm else ChaCha20Poly1305, checked.value, true));
  }
}
