/** A reply whose data the cache can hold, but no message: rrs2cent expands a compressed name
    in it, and RDLENGTH cannot say how long the result is. */
module RecordExamples {
  import opened DnsConstants
  import opened Names
  import opened NameCodec
  import opened NameCompression
  import opened CompressionRoundTrip
  import opened RecordData
  import opened RecordCodec
  import opened RecordRoundTrip
  import opened RRTypes

  const RDLEN := 65512          // 0xffe8
  const START := 12 + 1 + HDR   // the data follow the message header, the root and the fixed fields
  const LABEL := 24

  /** The bytes of the reply that are not zero: type, class and length; 18 bytes into the data
      of the RRSIG record a pointer to the two bytes behind it; there, a label. */
  function ReplyByte(i: nat): (b: byte)
  {
    if i == 14 then T_RRSIG
    else if i == 16 then C_IN
    else if i == 21 then 0xff
    else if i == 22 then 0xe8
    else if i == START + 18 then 0xc0
    else if i == START + 19 then START + 20
    else if i == START + 20 then LABEL
    else 0
  }

  /** As long as a TCP message can be. */
  function Reply(): (msg: seq<byte>)
    ensures |msg| == 65535 && forall i :: 0 <= i < |msg| ==> msg[i] == ReplyByte(i)
  {
    seq(65535, i requires 0 <= i < 65535 => ReplyByte(i))
  }

  /** The signer's name. */
  lemma SignerReads()
    ensures var msg := Reply();
      var n := FieldName(msg, START + 18, RDLEN - 18);
      n.Some? && |Wire(n.value)| == LABEL + 2 && Extent(msg, START + 18) == 2
  {
    var msg := Reply();
    var p := START + 20;
    var l := msg[p + 1..p + 1 + LABEL];
    assert msg[p] == LABEL && msg[p + 1 + LABEL] == 0 && msg[START + 18] == 0xc0 && msg[START + 19] == p;
    assert forall i :: 0 <= i < |l| ==> l[i] == msg[p + 1 + i];
    assert [l] + [] == [l];
    hide Reply;
    assert DecodeAt(msg, p + 1 + LABEL, 254) == Some([]);
    assert DecodeAt(msg, p, 254) == Some([l]);
    assert DecodeAt(msg, START + 18, 255) == DecodeAt(msg, Target(0xc0, p), 254);
    WireCons(l, []);
  }

  /** The data that are cached: one byte more than a record can have. */
  lemma SignatureExpands()
    ensures var msg := Reply();
      var d := ReadData(msg, START, RDLEN, T_RRSIG);
      START + RDLEN == |msg| && d.Some? && |d.value| == 0x1_0000
  {
    SignerReads();
    var msg := Reply();
    var p, sz := START + 18, RDLEN - 18;
    assert msg[p] == 0xc0;
    hide Reply;
    hide FieldName;
    hide Extent;
    var c := msg[p..START + RDLEN];
    assert !Normal(c) by {
      assert c[0] == 0xc0 && c[..DNSNAMEBUFSIZE][0] == 0xc0;
    }
    hide Normal;
    hide ReadParts;
    hide Flat;
    NameAndRest(msg, p, sz);
    FixedFirst(msg, START, RDLEN, 18, [DomainName, Rest]);
    assert [Fixed(18)] + [DomainName, Rest] == [Fixed(18), DomainName, Rest];
  }

  /** rrs2cent accepts the reply, and the record may be cached; but RDLENGTH cannot hold the
      size of its data, and written to an empty message it is not read back. */
  lemma LongSignature(x: seq<byte>)
    ensures var got := ReadRecord(Reply(), 12);
      && got.GotRecord? && ValidRecord(got.r) && !FitsRdlength(got.r)
      && Consistent(seq<byte>(12, i => 0), [])
    ensures var hdr, r := seq<byte>(12, i => 0), ReadRecord(Reply(), 12).r;
      var again := ReadRecord(hdr + RecordBytes([], 12, r) + x, 12);
      !(again.GotRecord? && SameRecord(r, again.r))
  {
    var hdr := seq<byte>(12, i => 0);
    EmptyTableConsistent(hdr);
    SignatureRead();
    hide Consistent;
    hide ReadRecord;
    hide RecordBytes;
    hide Reply;
    hide ReadData;
    hide ValidRecord;
    hide SameRecord;
    ReadRecordValid(Reply(), 12);
    RecordReads(hdr, [], ReadRecord(Reply(), 12).r, x);
  }

  lemma HeaderOfReply()
    ensures var msg := Reply();
      && FieldName(msg, 12, |msg| - 12) == Some([]) && Extent(msg, 12) == 1
      && Get16(msg, 13) == T_RRSIG && Get16(msg, 15) == C_IN && Get16(msg, 21) == RDLEN
  {
    var msg := Reply();
    assert msg[12] == 0 && forall i :: 13 <= i < 23 ==> msg[i] == ReplyByte(i);
    hide Reply;
    assert DecodeAt(msg, 12, 255) == Some([]);
  }

  lemma SignatureRead()
    ensures var got := ReadRecord(Reply(), 12);
      got.GotRecord? && |got.r.data| == 0x1_0000
  {
    HeaderOfReply();
    SignatureExpands();
    hide Reply;
    hide ReadData;
    hide FieldName;
    hide Extent;
    hide Get16;
    hide Get32;
  }
}
