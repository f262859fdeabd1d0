/** The two printers of the mDNS task, and how printers and parsers undo each other. */
module MdnsBuild {
  import opened Wrappers
  import opened MdnsWire
  import opened MdnsParse
  import opened MdnsMessages

  ghost predicate ValidLabel(l: seq<Octet>) { 1 <= |l| <= 63 }

  ghost function LocalName(l: seq<Octet>): Name { Name([l, LOCAL], Root) }

  ghost function QueryMessage(l: seq<Octet>): Message {
    Message(0, 0, [MdnsMessages.Question(LocalName(l), TYPE_A, CLASS_IN)], [], U16Octets(0) + U16Octets(0), [])
  }

  /** QR and AA set; the cache-flush bit in front of the class; TTL two minutes. */
  ghost function AnswerMessage(l: seq<Octet>, ip: Ip): Message {
    Message(0, 0x8400, [], [MdnsMessages.Record(LocalName(l), TYPE_A, 0x8001, 120, IpOctets(ip))],
            U16Octets(0) + U16Octets(0), [])
  }

  lemma PrintedIsValid(l: seq<Octet>, ip: Ip)
    requires ValidLabel(l)
    ensures ValidMessage(QueryMessage(l)) && ValidMessage(AnswerMessage(l, ip))
  {
    hide U16Octets;
  }

  ghost function PlainName(l: seq<Octet>): seq<Octet>
    requires |l| < 256
  {
    [|l|] + l + [5] + LOCAL + [0]
  }

  lemma PlainNameIs(l: seq<Octet>)
    requires ValidLabel(l)
    ensures NameOctets(LocalName(l)) == PlainName(l) && |PlainName(l)| == |l| + 8
  {
    var n := LocalName(l);
    var one := Name(n.labels[1..], Root);
    assert one == Name([LOCAL], Root);
    assert Name(one.labels[1..], Root) == Name([], Root);
    assert NameOctets(one) == [5] + LOCAL + [0];
    assert NameOctets(n) == [|l|] + l + NameOctets(one);
  }

  class Writer {
    const buf: array<Octet>
    var pos: nat

    ghost predicate Valid()
      reads this
    {
      pos <= buf.Length
    }

    ghost function Written(): seq<Octet>
      requires Valid()
      reads this, buf
    {
      buf[..pos]
    }

    constructor (buf: array<Octet>)
      ensures Valid() && this.buf == buf && pos == 0
    {
      this.buf := buf;
      pos := 0;
    }

    /** Appended in full, or not possible. */
    twostate predicate Put(ok: bool, s: seq<Octet>)
      requires old(Valid()) && Valid()
      reads this, buf
    {
      && (ok <==> old(pos) + |s| <= buf.Length)
      && (ok ==> Written() == old(Written()) + s)
    }

    method U8(v: Octet) returns (ok: bool)
      requires Valid()
      modifies this, buf
      ensures Valid() && Put(ok, [v])
    {
      if pos >= buf.Length { return false; }
      buf[pos] := v;
      pos := pos + 1;
      return true;
    }

    method U16(v: nat) returns (ok: bool)
      requires Valid() && v < 0x10000
      modifies this, buf
      ensures Valid() && Put(ok, U16Octets(v))
    {
      ok := U8(v / 256);
      if !ok { return; }
      ok := U8(v % 256);
    }

    method U32(v: nat) returns (ok: bool)
      requires Valid() && v < 0x1_0000_0000
      modifies this, buf
      ensures Valid() && Put(ok, U32Octets(v))
    {
      ok := U16(v / 0x1_0000);
      if !ok { return; }
      ok := U16(v % 0x1_0000);
    }

    method Bytes(s: seq<Octet>) returns (ok: bool)
      requires Valid()
      modifies this, buf
      ensures Valid() && Put(ok, s)
    {
      ghost var start := Written();
      for k := 0 to |s|
        invariant Valid() && pos == |start| + k && Written() == start + s[..k]
      {
        ok := U8(s[k]);
        if !ok { return; }
        assert s[..k + 1] == s[..k] + [s[k]];
      }
      assert s[..|s|] == s;
      ok := true;
    }

    method Part(part: seq<Octet>) returns (ok: bool)
      requires Valid()
      modifies this, buf
      ensures Valid() && (ok <==> ValidLabel(part) && old(pos) + 1 + |part| <= buf.Length)
      ensures ok ==> Written() == old(Written()) + [|part|] + part
    {
      if |part| == 0 || |part| > 63 { return false; }
      ok := U8(|part|);
      if !ok { return; }
      ok := Bytes(part);
    }

    /** `<label>.local` as length-prefixed labels and a zero octet. */
    method WriteName(host: seq<Octet>) returns (ok: bool)
      requires Valid()
      modifies this, buf
      ensures Valid() && (ok <==> ValidLabel(host) && old(pos) + |host| + 8 <= buf.Length)
      ensures ok ==> Written() == old(Written()) + PlainName(host)
    {
      ok := Part(host);
      if !ok { return; }
      ok := Part(LOCAL);
      if !ok { return; }
      ok := U8(0);
    }

    method ThreeU16(a: nat, b: nat, c: nat) returns (ok: bool)
      requires Valid() && a < 0x10000 && b < 0x10000 && c < 0x10000
      modifies this, buf
      ensures Valid() && (ok <==> old(pos) + 6 <= buf.Length)
      ensures ok ==> Written() == old(Written()) + U16Octets(a) + U16Octets(b) + U16Octets(c)
    {
      ok := U16(a);
      if !ok { return; }
      ok := U16(b);
      if !ok { return; }
      ok := U16(c);
    }

    /** The 12 header octets. */
    method Header(id: nat, flags: nat, qdcount: nat, ancount: nat, nscount: nat, arcount: nat) returns (ok: bool)
      requires Valid() && pos == 0
      requires id < 0x10000 && flags < 0x10000 && qdcount < 0x10000
      requires ancount < 0x10000 && nscount < 0x10000 && arcount < 0x10000
      modifies this, buf
      ensures Valid() && (ok <==> 12 <= buf.Length)
      ensures ok ==> Written() == HeaderWire(id, flags, qdcount, ancount, nscount, arcount)
    {
      assert Written() + U16Octets(id) == U16Octets(id);
      ok := ThreeU16(id, flags, qdcount);
      if !ok { return; }
      ok := ThreeU16(ancount, nscount, arcount);
    }

    /** A name, a type and a class: a question, or the front of a record. */
    method Question(host: seq<Octet>, qtype: nat, qclass: nat) returns (ok: bool)
      requires Valid() && qtype < 0x10000 && qclass < 0x10000
      modifies this, buf
      ensures Valid() && (ok <==> ValidLabel(host) && old(pos) + |host| + 12 <= buf.Length)
      ensures ok ==> Written() == old(Written()) + QuestionWire(host, qtype, qclass)
    {
      ok := WriteName(host);
      if !ok { return; }
      ok := U16(qtype);
      if !ok { return; }
      ok := U16(qclass);
    }

    method Record(host: seq<Octet>, rtype: nat, rclass: nat, ttl: nat, rdata: seq<Octet>) returns (ok: bool)
      requires Valid() && rtype < 0x10000 && rclass < 0x10000 && ttl < 0x1_0000_0000 && |rdata| < 0x10000
      modifies this, buf
      ensures Valid() && (ok <==> ValidLabel(host) && old(pos) + |host| + 18 + |rdata| <= buf.Length)
      ensures ok ==> Written() == old(Written()) + RecordWire(host, rtype, rclass, ttl, rdata)
    {
      ok := Question(host, rtype, rclass);
      if !ok { return; }
      ok := U32(ttl);
      if !ok { return; }
      ok := U16(|rdata|);
      if !ok { return; }
      ok := Bytes(rdata);
      if !ok { return; }
      AppendThree(old(Written()), QuestionWire(host, rtype, rclass), U32Octets(ttl), U16Octets(|rdata|), rdata);
    }
  }

  lemma AppendThree(start: seq<Octet>, a: seq<Octet>, b: seq<Octet>, c: seq<Octet>, d: seq<Octet>)
    ensures start + a + b + c + d == start + (a + b + c + d)
  {
  }

  ghost function HeaderWire(id: nat, flags: nat, qdcount: nat, ancount: nat, nscount: nat, arcount: nat)
    : (h: seq<Octet>)
    requires id < 0x10000 && flags < 0x10000 && qdcount < 0x10000
    requires ancount < 0x10000 && nscount < 0x10000 && arcount < 0x10000
    ensures |h| == 12
  {
    U16Octets(id) + U16Octets(flags) + U16Octets(qdcount) + U16Octets(ancount) + U16Octets(nscount) + U16Octets(arcount)
  }

  ghost function QuestionWire(l: seq<Octet>, qtype: nat, qclass: nat): (w: seq<Octet>)
    requires ValidLabel(l) && qtype < 0x10000 && qclass < 0x10000
    ensures |w| == |l| + 12
  {
    PlainName(l) + U16Octets(qtype) + U16Octets(qclass)
  }

  ghost function RecordWire(l: seq<Octet>, rtype: nat, rclass: nat, ttl: nat, rdata: seq<Octet>): (w: seq<Octet>)
    requires ValidLabel(l) && rtype < 0x10000 && rclass < 0x10000 && ttl < 0x1_0000_0000 && |rdata| < 0x10000
    ensures |w| == |l| + 18 + |rdata|
  {
    QuestionWire(l, rtype, rclass) + U32Octets(ttl) + U16Octets(|rdata|) + rdata
  }

  /** The 24 + |l| octets of a query. */
  ghost function QueryWire(l: seq<Octet>): (w: seq<Octet>)
    requires ValidLabel(l)
    ensures |w| == 24 + |l|
  {
    HeaderWire(0, 0, 1, 0, 0, 0) + QuestionWire(l, TYPE_A, CLASS_IN)
  }

  /** The 34 + |l| octets of an answer: QR and AA set, the cache-flush bit in front of the class, TTL two minutes. */
  ghost function AnswerWire(l: seq<Octet>, ip: Ip): (w: seq<Octet>)
    requires ValidLabel(l)
    ensures |w| == 34 + |l|
  {
    HeaderWire(0, 0x8400, 0, 1, 0, 0) + RecordWire(l, TYPE_A, 0x8001, 120, IpOctets(ip))
  }

  function IpOctets(ip: Ip): (s: seq<Octet>)
    ensures |s| == 4
  {
    [ip.a, ip.b, ip.c, ip.d]
  }

  lemma HeaderIs(m: Message, nscount: nat, arcount: nat)
    requires ValidMessage(m) && nscount < 0x10000 && arcount < 0x10000
    requires m.otherCounts == U16Octets(nscount) + U16Octets(arcount)
    ensures HeaderOctets(m) == HeaderWire(m.id, m.flags, |m.questions|, |m.answers|, nscount, arcount)
  {
  }

  lemma QuestionIs(q: MdnsMessages.Question, l: seq<Octet>)
    requires ValidLabel(l) && ValidQuestion(q) && q.name == LocalName(l)
    ensures QuestionsOctets([q]) == QuestionWire(l, q.qtype, q.qclass)
  {
    PlainNameIs(l);
    assert [q][1..] == [];
    assert QuestionsOctets([q]) == QuestionOctets(q) + [];
  }

  lemma RecordIs(r: MdnsMessages.Record, l: seq<Octet>)
    requires ValidLabel(l) && ValidRecord(r) && r.name == LocalName(l)
    ensures RecordsOctets([r]) == RecordWire(l, r.rtype, r.rclass, r.ttl, r.rdata)
  {
    PlainNameIs(l);
    assert [r][1..] == [];
    assert RecordsOctets([r]) == RecordOctets(r) + [];
  }

  /** What is printed is the wire form of the message meant. */
  lemma QueryWireIs(l: seq<Octet>)
    requires ValidLabel(l)
    ensures ValidMessage(QueryMessage(l)) && Octets(QueryMessage(l)) == QueryWire(l)
  {
    hide NameOctets, PlainName, U16Octets, U32Octets, QuestionOctets;
    var m := QueryMessage(l);
    PrintedIsValid(l, Ip(0, 0, 0, 0));
    QuestionIs(m.questions[0], l);
    HeaderIs(m, 0, 0);
  }

  lemma AnswerWireIs(l: seq<Octet>, ip: Ip)
    requires ValidLabel(l)
    ensures ValidMessage(AnswerMessage(l, ip)) && Octets(AnswerMessage(l, ip)) == AnswerWire(l, ip)
  {
    hide NameOctets, PlainName, U16Octets, U32Octets, RecordOctets;
    var m := AnswerMessage(l, ip);
    PrintedIsValid(l, ip);
    RecordIs(m.answers[0], l);
    HeaderIs(m, 0, 0);
  }

  /** The octets printed: id 0, flags 0, one question; the name; type 1, class 1. */
  lemma QueryOctets(l: seq<Octet>)
    requires ValidLabel(l)
    ensures QueryWire(l) == ([0, 0] + [0x00, 0x00] + [0, 1] + [0, 0] + [0, 0] + [0, 0])
                          + ([|l|] + l + [5, 0x6C, 0x6F, 0x63, 0x61, 0x6C, 0]) + [0, 1] + [0, 1]
  {
    hide QuestionWire, HeaderWire, U16Octets, PlainName;
    HeaderOf(0, 0, 0, 1, 0);
    PlainOctets(l);
    QuestionParts(l, 1, 1);
    TwoOctets(1, 0, 1);
    AppendThrough(HeaderWire(0, 0, 1, 0, 0, 0), PlainName(l), [0, 1], [0, 1]);
  }

  lemma AppendThrough(h: seq<Octet>, name: seq<Octet>, a: seq<Octet>, b: seq<Octet>)
    ensures h + (name + a + b) == h + name + a + b
  {
  }

  lemma TwoOctets(v: nat, hi: Octet, lo: Octet)
    requires v == 256 * hi + lo
    ensures v < 0x10000 && U16Octets(v) == [hi, lo]
  {
  }

  lemma FourOctets(v: nat, a: Octet, b: Octet, c: Octet, d: Octet)
    requires v == 0x1_0000 * (256 * a + b) + (256 * c + d)
    ensures v < 0x1_0000_0000 && U32Octets(v) == [a, b, c, d]
  {
    hide U16Octets;
    TwoOctets(256 * a + b, a, b);
    TwoOctets(256 * c + d, c, d);
    assert v / 0x1_0000 == 256 * a + b && v % 0x1_0000 == 256 * c + d;
  }

  lemma PlainOctets(l: seq<Octet>)
    requires |l| < 256
    ensures PlainName(l) == [|l|] + l + [5, 0x6C, 0x6F, 0x63, 0x61, 0x6C, 0]
  {
  }

  lemma QuestionParts(l: seq<Octet>, qtype: nat, qclass: nat)
    requires ValidLabel(l) && qtype < 0x10000 && qclass < 0x10000
    ensures QuestionWire(l, qtype, qclass) == PlainName(l) + U16Octets(qtype) + U16Octets(qclass)
  {
  }

  lemma HeaderParts(id: nat, flags: nat, qdcount: nat, ancount: nat, nscount: nat, arcount: nat)
    requires id < 0x10000 && flags < 0x10000 && qdcount < 0x10000
    requires ancount < 0x10000 && nscount < 0x10000 && arcount < 0x10000
    ensures HeaderWire(id, flags, qdcount, ancount, nscount, arcount)
         == U16Octets(id) + U16Octets(flags) + U16Octets(qdcount)
            + U16Octets(ancount) + U16Octets(nscount) + U16Octets(arcount)
  {
  }

  lemma HeaderOf(flags: nat, hi: Octet, lo: Octet, qdcount: Octet, ancount: Octet)
    requires flags == 256 * hi + lo
    ensures flags < 0x10000
    ensures HeaderWire(0, flags, qdcount, ancount, 0, 0)
         == [0, 0] + [hi, lo] + [0, qdcount] + [0, ancount] + [0, 0] + [0, 0]
  {
    hide U16Octets, HeaderWire, Be16;
    TwoOctets(0, 0, 0);
    TwoOctets(flags, hi, lo);
    TwoOctets(qdcount, 0, qdcount);
    TwoOctets(ancount, 0, ancount);
    HeaderParts(0, flags, qdcount, ancount, 0, 0);
  }

  /** The octets printed: id 0, QR and AA set, one answer; the name; type 1, class 1 with the cache-flush bit,
      120 seconds, four octets of address. */
  lemma AnswerOctets(l: seq<Octet>, ip: Ip)
    requires ValidLabel(l)
    ensures AnswerWire(l, ip) == ([0, 0] + [0x84, 0x00] + [0, 0] + [0, 1] + [0, 0] + [0, 0])
                               + ([|l|] + l + [5, 0x6C, 0x6F, 0x63, 0x61, 0x6C, 0])
                               + [0, 1] + [0x80, 1] + [0, 0, 0, 120] + [0, 4] + [ip.a, ip.b, ip.c, ip.d]
  {
    hide QuestionWire, HeaderWire, U16Octets, U32Octets, PlainName;
    HeaderOf(0x8400, 0x84, 0, 0, 1);
    PlainOctets(l);
    QuestionParts(l, 1, 0x8001);
    TwoOctets(1, 0, 1);
    TwoOctets(0x8001, 0x80, 1);
    FourOctets(120, 0, 0, 0, 120);
    TwoOctets(4, 0, 4);
    AppendSix(AnswerWire(l, ip), HeaderWire(0, 0x8400, 0, 1, 0, 0), PlainName(l), U16Octets(1), U16Octets(0x8001),
              U32Octets(120), U16Octets(4), IpOctets(ip));
  }

  lemma AppendSix(all: seq<Octet>, h: seq<Octet>, name: seq<Octet>, rtype: seq<Octet>, rclass: seq<Octet>,
                  ttl: seq<Octet>, rdlen: seq<Octet>, rdata: seq<Octet>)
    requires all == h + (name + rtype + rclass + ttl + rdlen + rdata)
    ensures all == h + name + rtype + rclass + ttl + rdlen + rdata
  {
  }

  /** Prints a query exactly when the label is 1 to 63 octets and the message fits. */
  method BuildQuery(buf: array<Octet>, host: seq<Octet>) returns (len: Option<nat>)
    modifies buf
    ensures len.Some? <==> ValidLabel(host) && 24 + |host| <= buf.Length
    ensures len.Some? ==> len.value == 24 + |host| && buf[..len.value] == QueryWire(host)
  {
    hide U16Octets, U32Octets, PlainName;
    var w := new Writer(buf);
    var ok := w.Header(0, 0, 1, 0, 0, 0);
    if !ok { return None; }
    ok := w.Question(host, TYPE_A, CLASS_IN);
    if !ok { return None; }
    len := Some(w.pos);
  }

  /** Prints an answer exactly when the label is 1 to 63 octets and the message fits. */
  method BuildAnswer(buf: array<Octet>, host: seq<Octet>, ip: Ip) returns (len: Option<nat>)
    modifies buf
    ensures len.Some? <==> ValidLabel(host) && 34 + |host| <= buf.Length
    ensures len.Some? ==> len.value == 34 + |host| && buf[..len.value] == AnswerWire(host, ip)
  {
    hide U16Octets, U32Octets, PlainName, IpOctets;
    var w := new Writer(buf);
    var ok := w.Header(0, 0x8400, 0, 1, 0, 0);
    if !ok { return None; }
    ok := w.Record(host, TYPE_A, 0x8000 + CLASS_IN, 120, IpOctets(ip));
    if !ok { return None; }
    len := Some(w.pos);
  }

  // ---- printers and parsers -----------------------------------------------

  lemma OneQuestion(m: Message, l: seq<Octet>, h: seq<Octet>)
    requires ValidMessage(m) && m.flags < QR && m.questions == [MdnsMessages.Question(LocalName(l), TYPE_A, CLASS_IN)]
    ensures (IsQueryFor(Octets(m), h) <==> SameText(l, h)) && ParseAnswer(Octets(m), h) == None
  {
    QueryIsRecognised(m, h);
    AnswerIsTheFirst(m, h);
    assert AnyAsks(m.questions, h) <==> QuestionAsks(m.questions[0], h);
  }

  lemma OneAnswer(m: Message, l: seq<Octet>, ip: Ip, h: seq<Octet>)
    requires ValidMessage(m) && m.flags >= QR
    requires m.answers == [MdnsMessages.Record(LocalName(l), TYPE_A, 0x8001, 120, IpOctets(ip))]
    ensures ParseAnswer(Octets(m), h) == (if SameText(l, h) then Some(ip) else None) && !IsQueryFor(Octets(m), h)
  {
    QueryIsRecognised(m, h);
    AnswerIsTheFirst(m, h);
    assert FirstAddress(m.answers[1..], h) == None;
  }

  /** A printed query asks for exactly the hosts that spell its label up to case, and answers nobody. */
  lemma QueryRoundTrip(l: seq<Octet>, h: seq<Octet>)
    requires ValidLabel(l)
    ensures IsQueryFor(QueryWire(l), h) <==> SameText(l, h)
    ensures ParseAnswer(QueryWire(l), h) == None
  {
    QueryWireIs(l);
    OneQuestion(QueryMessage(l), l, h);
  }

  /** A printed answer gives its address to exactly those names, and is nobody's query. */
  lemma AnswerRoundTrip(l: seq<Octet>, ip: Ip, h: seq<Octet>)
    requires ValidLabel(l)
    ensures ParseAnswer(AnswerWire(l, ip), h) == if SameText(l, h) then Some(ip) else None
    ensures !IsQueryFor(AnswerWire(l, ip), h)
  {
    AnswerWireIs(l, ip);
    OneAnswer(AnswerMessage(l, ip), l, ip, h);
  }

  // ---- the responder and the resolver --------------------------------------

  /** The reply the responder owes a packet: our answer, if it asks for us and we have an address. */
  ghost function Reply(pkt: seq<Octet>, hostname: seq<Octet>, ip: Option<Ip>): Option<seq<Octet>> {
    if IsQueryFor(pkt, hostname) && ip.Some? && ValidLabel(hostname) then Some(AnswerWire(hostname, ip.value)) else None
  }

  /** A message that asks for us is answered if we have an address and a hostname of 1 to 63 octets, with the
      answer for that address; any other gets no reply. */
  lemma OnlyAskersAreAnswered(m: Message, hostname: seq<Octet>, ip: Option<Ip>)
    requires ValidMessage(m)
    ensures var asks := m.flags < 0x8000 && AnyAsks(m.questions, hostname);
      Reply(Octets(m), hostname, ip)
      == if asks && ip.Some? && 1 <= |hostname| <= 63 then Some(AnswerWire(hostname, ip.value)) else None
  {
    QueryIsRecognised(m, hostname);
  }

  /** Whatever the bytes: a packet with QR set, or that holds no address question for us, gets no reply. */
  lemma NoQuestionNoReply(pkt: seq<Octet>, hostname: seq<Octet>, ip: Option<Ip>)
    requires |pkt| < 12 || pkt[2] >= 0x80 || forall at :: 12 <= at ==> !AddressQuestionAt(pkt, at, hostname)
    ensures Reply(pkt, hostname, ip) == None
  {
    if IsQueryFor(pkt, hostname) {
      QueryIsSound(pkt, hostname);
    }
  }

  /** The smallest query for a host, whatever its length. */
  function BareQuery(host: seq<Octet>): seq<Octet>
    requires 1 <= |host| < 192
  {
    [0, 0, 0, 0, 0, 1, 0, 0, 0, 0, 0, 0] + ([|host|] + host + [5] + LOCAL + [0]) + [0, 1, 0, 1]
  }

  /** A responder whose hostname is too long for a label takes such a query for its own and never answers it. */
  lemma OversizedHostIsNeverAnswered(host: seq<Octet>, ip: Option<Ip>)
    requires 64 <= |host| < 192
    ensures IsQueryFor(BareQuery(host), host) && Reply(BareQuery(host), host, ip) == None
  {
    hide NameMatches;
    var pkt, n := BareQuery(host), |host|;
    assert pkt[13..13 + n] == host && pkt[14 + n..19 + n] == LOCAL;
    MatchesSpelling(pkt, 12, host);
    MatchEnds(pkt, 12, host);
    assert TakeQuestion(pkt, 12, host) == Some((true, 1, 1));
  }

  method HandleInbound(pkt: seq<Octet>, hostname: seq<Octet>, ip: Option<Ip>) returns (sent: Option<seq<Octet>>)
    ensures sent == Reply(pkt, hostname, ip)
    ensures sent.Some? ==> |pkt| >= 12 && pkt[2] < 0x80 && exists at :: 12 <= at && AddressQuestionAt(pkt, at, hostname)
  {
    var hit := CheckQuery(pkt, hostname);
    if !hit || ip.None? { return None; }
    QueryIsSound(pkt, hostname);
    var answer := new Octet[256](_ => 0);
    var len := BuildAnswer(answer, hostname, ip.value);
    match len {
      case Some(n) => return Some(answer[..n]);
      case None => return None;
    }
  }

  /** The first address among the packets for the name asked. */
  ghost function FirstAnswer(packets: seq<seq<Octet>>, host: seq<Octet>): Option<Ip> {
    if packets == [] then None
    else if ParseAnswer(packets[0], host).Some? then ParseAnswer(packets[0], host)
    else FirstAnswer(packets[1..], host)
  }

  /** Everything sent for the packets before that answer. */
  ghost function Served(packets: seq<seq<Octet>>, host: seq<Octet>, hostname: seq<Octet>, ours: Option<Ip>)
    : seq<seq<Octet>>
  {
    if packets == [] || ParseAnswer(packets[0], host).Some? then []
    else
      var reply := Reply(packets[0], hostname, ours);
      (if reply.Some? then [reply.value] else []) + Served(packets[1..], host, hostname, ours)
  }

  /** The resolver's receive loop over the packets that arrive in time: the first one that answers
      decides; the ones before it are still served as queries for our own name. */
  method AwaitAnswer(packets: seq<seq<Octet>>, host: seq<Octet>, hostname: seq<Octet>, ours: Option<Ip>)
    returns (found: Option<Ip>, sent: seq<seq<Octet>>)
    ensures found == FirstAnswer(packets, host) && sent == Served(packets, host, hostname, ours)
  {
    hide ParseAnswer, Reply, AddressQuestionAt;
    found, sent := None, [];
    var left := packets;
    while left != [] && found.None?
      invariant FirstAnswer(packets, host) == if found.Some? then found else FirstAnswer(left, host)
      invariant Served(packets, host, hostname, ours)
             == if found.Some? then sent else sent + Served(left, host, hostname, ours)
      decreases |left|
    {
      found := FindAnswer(left[0], host);
      if found.None? {
        var reply := HandleInbound(left[0], hostname, ours);
        ghost var later := Served(left[1..], host, hostname, ours);
        if reply.Some? {
          assert sent + ([reply.value] + later) == (sent + [reply.value]) + later;
          sent := sent + [reply.value];
        } else {
          assert [] + later == later;
        }
      }
      left := left[1..];
    }
  }

  /** The packets in front of the first that answers: all of them if none does. */
  ghost predicate Unanswered(packets: seq<seq<Octet>>, host: seq<Octet>, n: nat) {
    && n <= |packets|
    && (forall i :: 0 <= i < n ==> ParseAnswer(packets[i], host) == None)
    && (n < |packets| ==> ParseAnswer(packets[n], host).Some?)
  }

  /** How many of the first `n` packets are queries for us. */
  function QueriesIn(packets: seq<seq<Octet>>, hostname: seq<Octet>, n: nat): nat
    requires n <= |packets|
  {
    if n == 0 then 0
    else QueriesIn(packets, hostname, n - 1) + (if IsQueryFor(packets[n - 1], hostname) then 1 else 0)
  }

  lemma {:induction false} QueriesInRest(packets: seq<seq<Octet>>, hostname: seq<Octet>, n: nat)
    requires 0 < n <= |packets|
    ensures QueriesIn(packets, hostname, n)
            == (if IsQueryFor(packets[0], hostname) then 1 else 0) + QueriesIn(packets[1..], hostname, n - 1)
  {
    if n > 1 {
      QueriesInRest(packets, hostname, n - 1);
    }
  }

  /** By positions: the packet that answers decides the address found, and for every query for our name in
      front of it, and for nothing else, our answer goes out. */
  lemma {:induction false} ServedExactly(packets: seq<seq<Octet>>, host: seq<Octet>, hostname: seq<Octet>,
                                         ours: Option<Ip>, n: nat)
    requires Unanswered(packets, host, n)
    ensures FirstAnswer(packets, host) == if n < |packets| then ParseAnswer(packets[n], host) else None
    ensures ours.Some? && 1 <= |hostname| <= 63 ==>
              && |Served(packets, host, hostname, ours)| == QueriesIn(packets, hostname, n)
              && EachIs(Served(packets, host, hostname, ours), AnswerWire(hostname, ours.value))
    ensures !(ours.Some? && 1 <= |hostname| <= 63) ==> Served(packets, host, hostname, ours) == []
    decreases |packets|
  {
    hide ParseAnswer, IsQueryFor, AnswerWire;
    if n > 0 {
      assert forall i :: 0 <= i < |packets| - 1 ==> packets[1..][i] == packets[i + 1];
      ServedExactly(packets[1..], host, hostname, ours, n - 1);
      QueriesInRest(packets, hostname, n);
      ServedFirst(packets, host, hostname, ours);
    }
  }

  ghost predicate EachIs(sent: seq<seq<Octet>>, answer: seq<Octet>) {
    forall i :: 0 <= i < |sent| ==> sent[i] == answer
  }

  lemma {:induction false} ServedFirst(packets: seq<seq<Octet>>, host: seq<Octet>, hostname: seq<Octet>,
                                       ours: Option<Ip>)
    requires packets != [] && ParseAnswer(packets[0], host) == None
    ensures var sent, rest := Served(packets, host, hostname, ours), Served(packets[1..], host, hostname, ours);
      if IsQueryFor(packets[0], hostname) && ours.Some? && ValidLabel(hostname)
      then sent == [AnswerWire(hostname, ours.value)] + rest else sent == rest
  {
    hide ParseAnswer, IsQueryFor, AnswerWire;
    var rest := Served(packets[1..], host, hostname, ours);
    assert [] + rest == rest;
  }

  lemma SameTextSymmetric(a: seq<Octet>, b: seq<Octet>)
    ensures SameText(a, b) <==> SameText(b, a)
  {
  }

  /** The two roles understand each other: the answer a responder prints resolves the label that was
      asked for exactly when the responder took the query for its own. */
  lemma ResolverMeetsResponder(asked: seq<Octet>, hostname: seq<Octet>, ip: Ip)
    requires ValidLabel(asked) && ValidLabel(hostname)
    ensures IsQueryFor(QueryWire(asked), hostname) <==> ParseAnswer(AnswerWire(hostname, ip), asked) == Some(ip)
  {
    QueryRoundTrip(asked, hostname);
    AnswerRoundTrip(hostname, ip, asked);
    SameTextSymmetric(asked, hostname);
  }
}
