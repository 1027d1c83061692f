/** Published and recorded values of the codecs, one text each (nodeid/codec_test.go, section 10 of
    RFC 4648, the check value of CRC-32C). */
module KnownAnswers {
  import opened Strings
  import opened Decimal
  import opened Base64
  import opened Varint
  import N = NodeId
  import T = Token
  import Castagnoli
  import Crc32c

  /** The last two vectors of RFC 4648, section 10, and the one with two padding characters. */
  lemma Base64Vectors()
    ensures Encode("foobar", Std) == "Zm9vYmFy"
    ensures Encode("fooba", Std) == "Zm9vYmE=" && Encode("fooba", RawUrl) == "Zm9vYmE"
    ensures Encode("foob", Std) == "Zm9vYg==" && Encode("foob", RawUrl) == "Zm9vYg"
  {
    assert ("foobar")[3..] == "bar" && ("fooba")[3..] == "ba" && ("foob")[3..] == "b";
  }

  lemma UserOneBody(e: N.Entry)
    requires e == N.Entry("User", "04", "U")
    ensures N.LegacyBody(e, 1) == "04:User1"
  {
  }

  lemma UserOneText(body: GoString)
    requires body == "04:User1"
    ensures Encode(body, Std) == "MDQ6VXNlcjE="
  {
    assert body[3..] == "User1" && body[3..][3..] == "r1";
    assert Encode(body[3..][3..], Std) == "cjE=";
    assert Encode(body[3..], Std) == "VXNlcjE=";
  }

  /** The historical id of user 1, and what it decodes to. */
  lemma LegacyUserOne(id: GoString)
    requires id == "MDQ6VXNlcjE="
    ensures N.Encode(0, 1, N.Legacy) == id && N.Decode(id) == Ok((0, 1))
  {
    var e := N.Registry(0).value;
    UserOneBody(e);
    UserOneText(N.LegacyBody(e, 1));
    N.DecodeEncode(0, 1, N.Legacy);
  }

  /** Pull request 42 in the prefixed format. */
  lemma NewPullRequest()
    ensures N.Encode(4, 42, N.New) == "PR_AFQ"
  {
  }

  lemma CheckNumeral(n: nat)
    requires n == 0xE306_9283
    ensures T.Base62(n) == "49la9j"
  {
    T.Base62InOrder(4, 9);
    T.Base62InOrder(257, 47);
    T.Base62InOrder(15981, 36);
    T.Base62InOrder(990858, 9);
    T.Base62InOrder(61433205, 45);
  }

  lemma CheckText(body: GoString)
    requires Crc32c.Checksum(body) == 0xE306_9283
    ensures T.ChecksumText(body) == "49la9j"
  {
    CheckNumeral(Crc32c.Checksum(body));
  }

  /** The checksum text of the check value's input. */
  lemma TokenChecksumText(body: GoString)
    requires body == "123456789"
    ensures T.ChecksumText(body) == "49la9j"
  {
    Castagnoli.CheckValue(body);
    CheckText(body);
  }

  lemma ZerosNumeral(n: nat)
    requires n == 0x36DE_5903
    ensures T.Base62(n) == "10IUsd"
  {
    T.Base62InOrder(1, 0);
    T.Base62InOrder(62, 18);
    T.Base62InOrder(3862, 30);
    T.Base62InOrder(239474, 54);
    T.Base62InOrder(14847442, 39);
  }

  /** A personal access token whose body is thirty zeros passes with this checksum and with no other. */
  lemma ZeroToken(body: GoString, c: GoString)
    requires |body| == 30 && (forall i :: 0 <= i < 30 ==> body[i] == '0') && |c| == 6
    ensures T.VerifyChecksum("ghp_" + body + c) <==> c == "10IUsd"
  {
    Castagnoli.ThirtyZerosSum(body);
    ZerosNumeral(Crc32c.Checksum(body));
    T.VerifyParts("ghp_", body, c);
  }

  /** Ids of git objects start with the letters of their kind. */
  lemma GitObjectStarts(repo: Int64, oid: GoString)
    ensures "C_" <= N.EncodeGitObject("commit", repo, oid) && "B_" <= N.EncodeGitObject("blob", repo, oid)
    ensures "REF_" <= N.EncodeGitObject("ref", repo, oid)
  {
  }
}
