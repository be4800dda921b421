/**
 * Passwords as hexadecimal digests: `Header::hash_password` of src/protocol/header.rs, and what the
 * hexadecimal check and the comparison of passwords mean for it.
 */
module Passwords {
  import opened Errors
  import opened Bytes
  import opened Utf8
  import opened Streams
  import opened Addresses
  import opened Headers
  import opened Vision

  // ---------------------------------------------------------------- hexadecimal

  const HEX_ALPHABET: string := "0123456789abcdef"

  function HexDigit(n: nat): byte
    requires n < 16
  {
    HEX_ALPHABET[n] as int
  }

  /** `hex::encode`. */
  function HexEncode(bs: seq<byte>): (s: seq<byte>)
    ensures |s| == 2 * |bs|
  {
    if bs == [] then [] else [HexDigit(bs[0] as nat / 16), HexDigit(bs[0] as nat % 16)] + HexEncode(bs[1..])
  }

  /** The value of a digit in either case, if it is one. */
  function DigitValue(b: byte): (v: Option<nat>)
    ensures v.Some? ==> v.value < 16
  {
    if 0x30 <= b <= 0x39 then Some(b as nat - 0x30)
    else if 0x61 <= b <= 0x66 then Some(b as nat - 0x57)
    else if 0x41 <= b <= 0x46 then Some(b as nat - 0x37)
    else None
  }

  function HexDecode(s: seq<byte>): Option<seq<byte>> {
    if s == [] then Some([])
    else if |s| == 1 || DigitValue(s[0]).None? || DigitValue(s[1]).None? then None
    else
      var rest := HexDecode(s[2..]);
      if rest.None? then None else Some([DigitValue(s[0]).value * 16 + DigitValue(s[1]).value] + rest.value)
  }

  /** The same text up to the case of letters. */
  predicate SameText(a: seq<byte>, b: seq<byte>) {
    |a| == |b| && forall i :: 0 <= i < |a| ==> SameLetter(a[i], b[i])
  }

  lemma DigitOfValue(n: nat)
    requires n < 16
    ensures IsHexDigit(HexDigit(n)) && DigitValue(HexDigit(n)) == Some(n)
    ensures forall b: byte :: SameLetter(b, HexDigit(n)) <==> DigitValue(b) == Some(n)
  {
  }

  lemma HexDigitsHaveValues(b: byte)
    ensures IsHexDigit(b) <==> DigitValue(b).Some?
  {
  }

  /** Any text that is the encoding up to case decodes to the bytes, and no other does. */
  lemma {:induction false} DecodesIffSameText(s: seq<byte>, bs: seq<byte>)
    ensures HexDecode(s) == Some(bs) <==> SameText(s, HexEncode(bs))
  {
    hide HexDigit, DigitValue, SameLetter;
    if bs == [] || |s| < 2 {
      assert SameText(s, HexEncode(bs)) ==> |s| == 2 * |bs|;
    } else {
      hide SameText;
      var hi, lo := bs[0] as nat / 16, bs[0] as nat % 16;
      DigitOfValue(hi);
      DigitOfValue(lo);
      DecodesIffSameText(s[2..], bs[1..]);
      SameTextSplits(s, HexDigit(hi), HexDigit(lo), HexEncode(bs[1..]));
      DecodesStep(s, bs);
    }
  }

  lemma DecodesStep(s: seq<byte>, bs: seq<byte>)
    requires |s| >= 2 && bs != []
    ensures HexDecode(s) == Some(bs) <==>
            && DigitValue(s[0]) == Some(bs[0] as nat / 16) && DigitValue(s[1]) == Some(bs[0] as nat % 16)
            && HexDecode(s[2..]) == Some(bs[1..])
  {
    hide DigitValue;
    if HexDecode(s) == Some(bs) {
      assert bs[1..] == HexDecode(s[2..]).value;
    }
    if HexDecode(s[2..]) == Some(bs[1..]) {
      assert bs == [bs[0]] + bs[1..];
    }
  }

  lemma SameTextSplits(s: seq<byte>, hi: byte, lo: byte, tail: seq<byte>)
    requires |s| >= 2
    ensures SameText(s, [hi, lo] + tail) <==> SameLetter(s[0], hi) && SameLetter(s[1], lo) && SameText(s[2..], tail)
  {
    var t := [hi, lo] + tail;
    if SameLetter(s[0], hi) && SameLetter(s[1], lo) && SameText(s[2..], tail) {
      forall i | 0 <= i < |s| ensures SameLetter(s[i], t[i]) {
        if i >= 2 {
          assert s[i] == s[2..][i - 2];
        }
      }
    }
    if SameText(s, t) {
      forall i | 0 <= i < |s[2..]| ensures SameLetter(s[2..][i], tail[i]) {
        assert s[2..][i] == s[i + 2] && tail[i] == t[i + 2];
      }
    }
  }

  /** Decoding inverts encoding. */
  lemma HexRoundTrip(bs: seq<byte>)
    ensures HexDecode(HexEncode(bs)) == Some(bs)
  {
    hide HexEncode, HexDecode;
    DecodesIffSameText(HexEncode(bs), bs);
  }

  lemma {:induction false} AllHexDecodes(s: seq<byte>)
    requires |s| % 2 == 0
    ensures AllHex(s) <==> HexDecode(s).Some?
    ensures HexDecode(s).Some? ==> |s| == 2 * |HexDecode(s).value|
  {
    if s != [] {
      HexDigitsHaveValues(s[0]);
      HexDigitsHaveValues(s[1]);
      AllHexDecodes(s[2..]);
      if AllHex(s[2..]) && IsHexDigit(s[0]) && IsHexDigit(s[1]) {
        forall i | 0 <= i < |s| ensures IsHexDigit(s[i]) {
          if i >= 2 {
            assert s[i] == s[2..][i - 2];
          }
        }
      }
    }
  }

  /** Fifty-six bytes pass the check iff, up to case, they are the hexadecimal of some digest. */
  lemma HexCheckIffDigest(s: seq<byte>)
    requires |s| == 56
    ensures AllHex(s) <==> exists digest: seq<byte> :: |digest| == 28 && SameText(s, HexEncode(digest))
  {
    AllHexDecodes(s);
    if AllHex(s) {
      var digest := HexDecode(s).value;
      DecodesIffSameText(s, digest);
      assert |digest| == 28 && SameText(s, HexEncode(digest));
    }
    if digest: seq<byte> :| |digest| == 28 && SameText(s, HexEncode(digest)) {
      DecodesIffSameText(s, digest);
    }
  }

  // ---------------------------------------------------------------- headers of honest clients

  /** `hash_password`. */
  function HashPassword(password: seq<byte>, sha: Sha224): (s: seq<byte>)
    ensures |s| == 56
  {
    HexEncode(sha(password))
  }

  lemma HexIsHex(digest: seq<byte>)
    ensures AllHex(HexEncode(digest)) && ValidUtf8(HexEncode(digest))
  {
    hide HexEncode, HexDecode, AllHex, ValidUtf8;
    HexRoundTrip(digest);
    AllHexDecodes(HexEncode(digest));
    HexIsUtf8(HexEncode(digest));
  }

  /** The header check refuses a hash iff it is not, up to case, the hexadecimal of a digest. */
  lemma HashRefusedIffNoDigest(buf: seq<byte>)
    requires |buf| >= 58
    ensures TryParseFromBuf(buf) == Err(Protocol(HashNotHex)) <==>
            !exists digest: seq<byte> :: |digest| == 28 && SameText(buf[..56], HexEncode(digest))
  {
    hide HexEncode, SameText;
    HexCheckIffDigest(buf[..56]);
    if |buf| >= ADDR_START && ParseFromBuf(buf[ADDR_START..]).Err? {
      assert ParseFromBuf(buf[ADDR_START..]).error != Protocol(HashNotHex);
    }
  }

  /** What a client with a password sends is parsed as its header, in either case of its digits, and ends where it ends. */
  lemma HonestHeaderParses(digest: seq<byte>, hash: seq<byte>, command: Command, address: Address, payload: seq<byte>)
    requires |digest| == 28 && SameText(hash, HexEncode(digest))
    requires Encoding(address).Ok? && OnWire(address) == address
    ensures var bs := hash + [0x0d, 0x0a] + [command.AsU8()] + Encoding(address).value + [0x0d, 0x0a];
            && TryParseFromBuf(bs + payload) == Ok(Some(Header(hash, command, address)))
            && ComputeHeaderEnd(bs + payload) == |bs|
  {
    hide TryParseFromBuf, ComputeHeaderEnd, HexEncode, SameText, Encoding, OnWire, AllHex;
    assert |hash| == 56 by { SameLength(hash, HexEncode(digest)); }
    HexCheckIffDigest(hash);
    EncodingIsWireForm(address);
    TryParseOfForm(Header(hash, command, address), payload);
  }

  lemma SameLength(a: seq<byte>, b: seq<byte>)
    requires SameText(a, b)
    ensures |a| == |b|
  {
  }

  lemma EncodingIsWireForm(a: Address)
    requires Encoding(a).Ok?
    ensures WireForm(a) == Encoding(a)
  {
  }

  // ---------------------------------------------------------------- verifying

  /** A header verifies iff some configured password has 56 bytes that are those of its hash up to the case of letters. */
  lemma VerifyIffSameText(h: Header, passwords: seq<Str>)
    ensures VerifyPassword(h, passwords) <==>
            exists p: Str :: p in passwords && |p| == 56 && SameText(p, h.passwordHash)
  {
    forall p: Str
      ensures EqIgnoreAsciiCase(p, h.passwordHash) <==> SameText(p, h.passwordHash)
    {
      EqIgnoreAsciiCaseByLetters(p, h.passwordHash);
    }
    if VerifyPassword(h, passwords) {
      var i :| 0 <= i < |passwords| && |passwords[i]| == PASSWORD_HEX_LEN
               && EqIgnoreAsciiCase(passwords[i], h.passwordHash);
      assert passwords[i] in passwords;
    }
  }

  /** Two texts that are hexadecimal of digests up to case are the same text up to case iff the digests are equal. */
  lemma SameTextIffSameDigest(s: seq<byte>, bs: seq<byte>, s': seq<byte>, bs': seq<byte>)
    requires SameText(s, HexEncode(bs)) && SameText(s', HexEncode(bs'))
    ensures SameText(s, s') <==> bs == bs'
  {
    DecodesIffSameText(s, bs);
    DecodesIffSameText(s', bs');
    if SameText(s, s') {
      SameTextDecodesAlike(s, s');
    }
    if bs == bs' {
      forall i | 0 <= i < |s| ensures SameLetter(s[i], s'[i]) {
        assert SameLetter(s[i], HexEncode(bs)[i]) && SameLetter(s'[i], HexEncode(bs)[i]);
      }
    }
  }

  lemma {:induction false} SameTextDecodesAlike(s: seq<byte>, s': seq<byte>)
    requires SameText(s, s')
    ensures HexDecode(s) == HexDecode(s')
  {
    if |s| >= 2 {
      assert SameLetter(s[0], s'[0]) && SameLetter(s[1], s'[1]);
      assert SameText(s[2..], s'[2..]) by {
        forall i | 0 <= i < |s[2..]| ensures SameLetter(s[2..][i], s'[2..][i]) {
          assert SameLetter(s[i + 2], s'[i + 2]);
        }
      }
      SameTextDecodesAlike(s[2..], s'[2..]);
    }
  }

  /**
   * Both authenticators let a client in iff the digest its hash spells is one that a configured
   * password spells, whatever the case of the digits on either side.
   */
  lemma VerifyIffKnownDigest(h: Header, digest: seq<byte>, passwords: seq<Str>, digests: seq<seq<byte>>)
    requires |digest| == 28 && SameText(h.passwordHash, HexEncode(digest))
    requires |passwords| == |digests|
    requires forall i :: 0 <= i < |digests| ==> |digests[i]| == 28 && SameText(passwords[i], HexEncode(digests[i]))
    ensures VerifyPassword(h, passwords) <==> digest in digests
    ensures KnownPassword(passwords, h.passwordHash) <==> digest in digests
  {
    hide HexEncode;
    VerifyIffSameText(h, passwords);
    AuthenticatorsAgree(h, passwords);
    forall i | 0 <= i < |digests|
      ensures SameText(passwords[i], h.passwordHash) <==> digests[i] == digest
    {
      SameTextIffSameDigest(passwords[i], digests[i], h.passwordHash, digest);
    }
  }

  /** Two different lower-case hexadecimal hashes never verify each other. */
  lemma DifferentHashesNeverVerify(bs: seq<byte>, bs': seq<byte>, password: Str, command: Command, address: Address)
    requires |bs| == |bs'| == 28 && password == HexEncode(bs')
    ensures VerifyPassword(Header(HexEncode(bs), command, address), [password]) <==> HexEncode(bs) == HexEncode(bs')
  {
    hide VerifyPassword, HexEncode;
    assert SameText(HexEncode(bs), HexEncode(bs)) && SameText(password, HexEncode(bs'));
    VerifyIffKnownDigest(Header(HexEncode(bs), command, address), bs, [password], [bs']);
    HexRoundTrip(bs);
    HexRoundTrip(bs');
  }
}
