/** The two parsers of the mDNS task: is a packet a query for us, and does it answer a name. */
module MdnsParse {
  import opened Wrappers
  import opened MdnsWire

  datatype Ip = Ip(a: Octet, b: Octet, c: Octet, d: Octet)

  /** QR, the top bit of the flags: clear in a query, set in a response. */
  const QR: nat := 0x8000

  function HeaderU16(pkt: seq<Octet>, at: nat): nat
    requires at + 1 < |pkt|
  {
    Be16(pkt[at], pkt[at + 1])
  }

  /** A question: whether its name is `host`.local, its type and its class. */
  function TakeQuestion(buf: seq<Octet>, pos: nat, host: seq<Octet>): Option<(bool, nat, nat)> {
    var name := NameMatches(buf, pos, host, 0);
    if name.pos + 4 <= |buf| then
      Some((name.matched, Be16(buf[name.pos], buf[name.pos + 1]), Be16(buf[name.pos + 2], buf[name.pos + 3])))
    else None
  }

  /** Our name, type A, class IN under the unicast bit. */
  predicate Asks(q: (bool, nat, nat)) { q.0 && q.1 == TYPE_A && ClassOf(q.2) == CLASS_IN }

  /** Walk `n` questions from `pos` looking for one that asks for `host`.local. */
  function QueryScan(buf: seq<Octet>, pos: nat, n: nat, host: seq<Octet>): bool
    decreases n
  {
    if n == 0 then false
    else
      var q := TakeQuestion(buf, pos, host);
      if q == None then false
      else if Asks(q.value) then true
      else QueryScan(buf, NameMatches(buf, pos, host, 0).pos + 4, n - 1, host)
  }

  function IsQueryFor(pkt: seq<Octet>, host: seq<Octet>): bool {
    |pkt| >= 12 && HeaderU16(pkt, 2) < QR && QueryScan(pkt, 12, HeaderU16(pkt, 4), host)
  }

  /** Where `n` questions from `pos` on end. */
  function SkipQuestions(buf: seq<Octet>, pos: nat, n: nat): Option<nat>
    decreases n
  {
    if n == 0 then Some(pos)
    else
      var name := SkipName(buf, pos);
      if name.value == None || name.pos + 4 > |buf| then None else SkipQuestions(buf, name.pos + 4, n - 1)
  }

  /** Of the ten fixed octets behind a record's name, the two fields that matter: type and RDLENGTH. */
  function TakeFields(buf: seq<Octet>, pos: nat): Option<(nat, nat)> {
    if pos + 10 <= |buf| then Some((Be16(buf[pos], buf[pos + 1]), Be16(buf[pos + 8], buf[pos + 9]))) else None
  }

  function TakeIp(buf: seq<Octet>, pos: nat): Option<Ip> {
    if pos + 4 <= |buf| then Some(Ip(buf[pos], buf[pos + 1], buf[pos + 2], buf[pos + 3])) else None
  }

  /** What one answer record amounts to: the address, the place of the next record, or a broken packet. */
  datatype Answer = Found(ip: Option<Ip>) | Onward(pos: nat) | Broken

  function TakeAnswer(buf: seq<Octet>, pos: nat, host: seq<Octet>): Answer {
    var name := NameMatches(buf, pos, host, 0);
    var fields := TakeFields(buf, name.pos);
    if fields == None then Broken
    else
      var (rtype, rdlen) := fields.value;
      if name.matched && rtype == TYPE_A && rdlen == 4 then Found(TakeIp(buf, name.pos + 10))
      else if name.pos + 10 + rdlen > |buf| then Broken
      else Onward(name.pos + 10 + rdlen)
  }

  /** Walk `n` answers from `pos` for the first A record of `host`.local. The class is read but not compared. */
  function AnswerScan(buf: seq<Octet>, pos: nat, n: nat, host: seq<Octet>): Option<Ip>
    decreases n
  {
    if n == 0 then None
    else
      match TakeAnswer(buf, pos, host)
      case Found(ip) => ip
      case Onward(next) => AnswerScan(buf, next, n - 1, host)
      case Broken => None
  }

  function ParseAnswer(pkt: seq<Octet>, host: seq<Octet>): Option<Ip> {
    if |pkt| < 12 || HeaderU16(pkt, 2) < QR then None
    else
      var start := SkipQuestions(pkt, 12, HeaderU16(pkt, 4));
      if start == None then None else AnswerScan(pkt, start.value, HeaderU16(pkt, 6), host)
  }

  lemma SkipOneMore(buf: seq<Octet>, pos: nat, n: nat)
    requires n > 0
    ensures SkipQuestions(buf, pos, n) ==
      var one := SkipQuestions(buf, pos, 1); if one == None then None else SkipQuestions(buf, one.value, n - 1)
  {
  }

  lemma ScanOneMore(buf: seq<Octet>, pos: nat, n: nat, host: seq<Octet>, answer: Answer)
    requires n > 0 && answer == TakeAnswer(buf, pos, host)
    ensures AnswerScan(buf, pos, n, host) ==
      if answer.Found? then answer.ip else if answer.Onward? then AnswerScan(buf, answer.pos, n - 1, host) else None
  {
  }

  // ---- the reader ---------------------------------------------------------

  lemma QueryOneMore(buf: seq<Octet>, pos: nat, n: nat, host: seq<Octet>, q: Option<(bool, nat, nat)>, next: nat)
    requires n > 0 && q == TakeQuestion(buf, pos, host) && next == NameMatches(buf, pos, host, 0).pos + 4
    ensures QueryScan(buf, pos, n, host) == (q.Some? && (Asks(q.value) || QueryScan(buf, next, n - 1, host)))
  {
  }

  class Reader {
    const buf: seq<Octet>
    var pos: nat
    const flags: nat
    const qdcount: nat
    const ancount: nat

    /** The header fields both parsers need. The cursor starts behind the 12 octets of the header. */
    constructor (buf: seq<Octet>)
      requires |buf| >= 12
      ensures this.buf == buf && pos == 12
      ensures flags == HeaderU16(buf, 2) && qdcount == HeaderU16(buf, 4) && ancount == HeaderU16(buf, 6)
    {
      this.buf := buf;
      pos := 12;
      flags, qdcount, ancount := HeaderU16(buf, 2), HeaderU16(buf, 4), HeaderU16(buf, 6);
    }

    method U8() returns (r: Option<Octet>)
      modifies this
      ensures Taken(r, pos) == TakeU8(buf, old(pos))
    {
      if pos >= |buf| {
        return None;
      }
      r := Some(buf[pos]);
      pos := pos + 1;
    }

    method U16() returns (r: Option<nat>)
      modifies this
      ensures Taken(r, pos) == TakeU16(buf, old(pos))
    {
      var hi := U8();
      if hi.None? { return None; }
      var lo := U8();
      if lo.None? { return None; }
      r := Some(Be16(hi.value, lo.value));
    }

    method U32() returns (r: Option<nat>)
      modifies this
      ensures r.Some? <==> old(pos) + 4 <= |buf|
      ensures r.Some? ==> pos == old(pos) + 4
    {
      var a := U8();
      if a.None? { return None; }
      var b := U8();
      if b.None? { return None; }
      var c := U8();
      if c.None? { return None; }
      var d := U8();
      if d.None? { return None; }
      r := Some(Be16(a.value, b.value) * 0x1_0000 + Be16(c.value, d.value));
    }

    method Skip(n: nat) returns (ok: bool)
      modifies this
      ensures ok == TakeSkip(buf, old(pos), n).value.Some? && pos == old(pos) + n
    {
      pos := pos + n;
      ok := pos <= |buf|;
    }

    method SkipOverName() returns (ok: bool)
      modifies this
      ensures ok == SkipName(buf, old(pos)).value.Some? && pos == SkipName(buf, old(pos)).pos
    {
      while true
        invariant SkipName(buf, pos) == SkipName(buf, old(pos))
        decreases |buf| - pos
      {
        var l := U8();
        if l.None? { return false; }
        if IsPointer(l.value) {
          var second := U8();
          return second.Some?;
        } else if IsLength(l.value) {
          if l.value == 0 { return true; }
          var skipped := Skip(l.value);
          if !skipped { return false; }
        } else {
          return false;
        }
      }
    }

    method MatchName(host: seq<Octet>) returns (matched: bool)
      modifies this
      ensures matched == NameMatches(buf, old(pos), host, 0).matched && pos == NameMatches(buf, old(pos), host, 0).pos
    {
      hide NameMatches, SameText;
      var idx: nat := 0;
      ghost var goal := NameMatches(buf, pos, host, 0);
      while true
        invariant NameMatches(buf, pos, host, idx) == goal
        decreases |buf| - pos
      {
        MatchStops(buf, pos, host, idx);
        var l := U8();
        if l.None? { return false; }
        if IsPointer(l.value) {
          var _ := U8();
          return false;
        }
        if l.value == 0 { return idx == 2; }
        var start := pos;
        var skipped := Skip(l.value);
        if !skipped { return false; }
        MatchOneMore(buf, start - 1, host, idx);
        idx := NextIdx(buf[start..start + l.value], host, idx);
      }
    }

    /** The fixed fields of a record: type, class, TTL, RDLENGTH. */
    method ReadFields() returns (r: Option<(nat, nat)>)
      modifies this
      ensures r == TakeFields(buf, old(pos)) && (r.Some? ==> pos == old(pos) + 10)
    {
      var rtype := U16();
      if rtype.None? { return None; }
      var rclass := U16();
      if rclass.None? { return None; }
      var ttl := U32();
      if ttl.None? { return None; }
      var rdlen := U16();
      if rdlen.None? { return None; }
      r := Some((rtype.value, rdlen.value));
    }

    method ReadIp() returns (r: Option<Ip>)
      modifies this
      ensures r == TakeIp(buf, old(pos))
    {
      var a := U8();
      if a.None? { return None; }
      var b := U8();
      if b.None? { return None; }
      var c := U8();
      if c.None? { return None; }
      var d := U8();
      if d.None? { return None; }
      r := Some(Ip(a.value, b.value, c.value, d.value));
    }

    method ReadQuestion(host: seq<Octet>) returns (q: Option<(bool, nat, nat)>)
      modifies this
      ensures q == TakeQuestion(buf, old(pos), host)
      ensures q.Some? ==> pos == NameMatches(buf, old(pos), host, 0).pos + 4
    {
      var matched := MatchName(host);
      var qtype := U16();
      var qclass := U16();
      if qtype.None? || qclass.None? { return None; }
      q := Some((matched, qtype.value, qclass.value));
    }

    method ReadAnswer(host: seq<Octet>) returns (answer: Answer)
      modifies this
      ensures answer == TakeAnswer(buf, old(pos), host) && (answer.Onward? ==> pos == answer.pos)
    {
      var matched := MatchName(host);
      var fields := ReadFields();
      if fields.None? { return Broken; }
      var (rtype, rdlen) := fields.value;
      if matched && rtype == TYPE_A && rdlen == 4 {
        var ip := ReadIp();
        return Found(ip);
      }
      var skipped := Skip(rdlen);
      if !skipped { return Broken; }
      return Onward(pos);
    }

    /** One turn of the question loop: whether the question asks for us, or None at the end of the packet. */
    method NextQuestion(host: seq<Octet>, ghost left: nat) returns (asked: Option<bool>)
      requires left > 0
      modifies this
      ensures QueryScan(buf, old(pos), left, host)
              == (asked.Some? && (asked.value || QueryScan(buf, pos, left - 1, host)))
    {
      ghost var next := NameMatches(buf, pos, host, 0).pos + 4;
      var q := ReadQuestion(host);
      QueryOneMore(buf, old(pos), left, host, q, next);
      asked := if q.None? then None else Some(Asks(q.value));
    }

    /** Through the question section, up to the first hit. */
    method ScanQuestions(host: seq<Octet>) returns (hit: bool)
      modifies this
      ensures hit == QueryScan(buf, old(pos), qdcount, host)
    {
      ghost var goal := QueryScan(buf, pos, qdcount, host);
      for k := 0 to qdcount
        invariant QueryScan(buf, pos, qdcount - k, host) == goal
      {
        var asked := NextQuestion(host, qdcount - k);
        if asked.None? { return false; }
        if asked.value { return true; }
      }
      return false;
    }

    /** Past one question, without looking at it. */
    method SkipQuestion() returns (ok: bool)
      modifies this
      ensures SkipQuestions(buf, old(pos), 1) == if ok then Some(pos) else None
    {
      ok := SkipOverName();
      if !ok { return; }
      var qtype := U16();
      if qtype.None? { return false; }
      var qclass := U16();
      ok := qclass.Some?;
    }

    /** Past the whole question section. */
    method SkipAllQuestions() returns (ok: bool)
      modifies this
      ensures SkipQuestions(buf, old(pos), qdcount) == if ok then Some(pos) else None
    {
      for k := 0 to qdcount
        invariant SkipQuestions(buf, old(pos), qdcount) == SkipQuestions(buf, pos, qdcount - k)
      {
        SkipOneMore(buf, pos, qdcount - k);
        ok := SkipQuestion();
        if !ok { return; }
      }
      ok := true;
    }

    /** Through the answer section, up to the first hit. */
    method ScanAnswers(host: seq<Octet>) returns (ip: Option<Ip>)
      modifies this
      ensures ip == AnswerScan(buf, old(pos), ancount, host)
    {
      hide TakeAnswer;
      ghost var goal := AnswerScan(buf, pos, ancount, host);
      for k := 0 to ancount
        invariant AnswerScan(buf, pos, ancount - k, host) == goal
      {
        ghost var at := pos;
        var answer := ReadAnswer(host);
        ScanOneMore(buf, at, ancount - k, host, answer);
        match answer {
          case Found(found) => return found;
          case Onward(_) =>
          case Broken => return None;
        }
      }
      return None;
    }
  }

  // ---- the parsers --------------------------------------------------------

  method CheckQuery(pkt: seq<Octet>, host: seq<Octet>) returns (hit: bool)
    ensures hit == IsQueryFor(pkt, host)
  {
    if |pkt| < 12 { return false; }
    var r := new Reader(pkt);
    if r.flags >= QR { return false; }
    hit := r.ScanQuestions(host);
  }

  method FindAnswer(pkt: seq<Octet>, host: seq<Octet>) returns (ip: Option<Ip>)
    ensures ip == ParseAnswer(pkt, host)
  {
    if |pkt| < 12 { return None; }
    var r := new Reader(pkt);
    if r.flags < QR { return None; }
    var ok := r.SkipAllQuestions();
    if !ok { return None; }
    ip := r.ScanAnswers(host);
  }
}
