/** What the parsers say about whole messages: on the wire form of any list of questions and
    records, and on arbitrary bytes. */
module MdnsMessages {
  import opened Wrappers
  import opened MdnsWire
  import opened MdnsParse

  // ---- the wire form, sections 3.1 and 4.1 of RFC 1035 ---------------------

  /** A name: its labels, then the root or a compression pointer. */
  datatype Name = Name(labels: seq<seq<Octet>>, ending: Ending)

  datatype Ending = Root | Pointer(high: Octet, low: Octet)

  datatype Question = Question(name: Name, qtype: nat, qclass: nat)

  datatype Record = Record(name: Name, rtype: nat, rclass: nat, ttl: nat, rdata: seq<Octet>)

  /** Header fields the parsers ignore, and everything behind the answers, are arbitrary octets. */
  datatype Message = Message(id: nat, flags: nat, questions: seq<Question>, answers: seq<Record>,
                             otherCounts: seq<Octet>, rest: seq<Octet>)

  ghost predicate ValidName(n: Name) {
    && (forall k :: 0 <= k < |n.labels| ==> 1 <= |n.labels[k]| <= 63)
    && (n.ending.Pointer? ==> IsPointer(n.ending.high))
  }

  ghost predicate ValidQuestion(q: Question) {
    ValidName(q.name) && q.qtype < 0x10000 && q.qclass < 0x10000
  }

  ghost predicate ValidRecord(r: Record) {
    ValidName(r.name) && r.rtype < 0x10000 && r.rclass < 0x10000 && r.ttl < 0x1_0000_0000 && |r.rdata| < 0x10000
  }

  ghost predicate ValidMessage(m: Message) {
    && m.id < 0x10000 && m.flags < 0x10000 && |m.questions| < 0x10000 && |m.answers| < 0x10000 && |m.otherCounts| == 4
    && (forall k :: 0 <= k < |m.questions| ==> ValidQuestion(m.questions[k]))
    && (forall k :: 0 <= k < |m.answers| ==> ValidRecord(m.answers[k]))
  }

  /** The two octets that read as `v`. */
  ghost function U16Octets(v: nat): (s: seq<Octet>)
    requires v < 0x10000
    ensures |s| == 2 && Be16(s[0], s[1]) == v
  {
    assert |[v / 256, v % 256]| == 2 && Be16(v / 256, v % 256) == v;
    var s: seq<Octet> :| |s| == 2 && Be16(s[0], s[1]) == v;
    s
  }

  ghost function U32Octets(v: nat): (s: seq<Octet>)
    requires v < 0x1_0000_0000
    ensures |s| == 4
  {
    U16Octets(v / 0x1_0000) + U16Octets(v % 0x1_0000)
  }

  ghost function NameOctets(n: Name): seq<Octet>
    requires ValidName(n)
    decreases |n.labels|
  {
    if n.labels == [] then (if n.ending.Root? then [0] else [n.ending.high, n.ending.low])
    else [|n.labels[0]|] + n.labels[0] + NameOctets(Name(n.labels[1..], n.ending))
  }

  ghost function QuestionOctets(q: Question): seq<Octet>
    requires ValidQuestion(q)
  {
    NameOctets(q.name) + U16Octets(q.qtype) + U16Octets(q.qclass)
  }

  ghost function RecordOctets(r: Record): seq<Octet>
    requires ValidRecord(r)
  {
    NameOctets(r.name) + U16Octets(r.rtype) + U16Octets(r.rclass) + U32Octets(r.ttl) + U16Octets(|r.rdata|) + r.rdata
  }

  ghost function QuestionsOctets(qs: seq<Question>): seq<Octet>
    requires forall k :: 0 <= k < |qs| ==> ValidQuestion(qs[k])
  {
    if qs == [] then [] else QuestionOctets(qs[0]) + QuestionsOctets(qs[1..])
  }

  ghost function RecordsOctets(rs: seq<Record>): seq<Octet>
    requires forall k :: 0 <= k < |rs| ==> ValidRecord(rs[k])
  {
    if rs == [] then [] else RecordOctets(rs[0]) + RecordsOctets(rs[1..])
  }

  ghost function HeaderOctets(m: Message): (h: seq<Octet>)
    requires ValidMessage(m)
    ensures |h| == 12
  {
    U16Octets(m.id) + U16Octets(m.flags) + U16Octets(|m.questions|) + U16Octets(|m.answers|) + m.otherCounts
  }

  ghost function Octets(m: Message): seq<Octet>
    requires ValidMessage(m)
  {
    HeaderOctets(m) + QuestionsOctets(m.questions) + RecordsOctets(m.answers) + m.rest
  }

  // ---- bytes at a place ---------------------------------------------------

  ghost predicate At(buf: seq<Octet>, pos: nat, s: seq<Octet>) {
    pos + |s| <= |buf| && buf[pos..pos + |s|] == s
  }

  lemma AtConcat(buf: seq<Octet>, pos: nat, a: seq<Octet>, b: seq<Octet>)
    ensures At(buf, pos, a + b) <==> At(buf, pos, a) && At(buf, pos + |a|, b)
  {
    if At(buf, pos, a + b) {
      assert buf[pos..pos + |a|] == (a + b)[..|a|] == a;
      assert buf[pos + |a|..pos + |a| + |b|] == (a + b)[|a|..] == b;
    }
    if At(buf, pos, a) && At(buf, pos + |a|, b) {
      assert buf[pos..pos + |a| + |b|] == buf[pos..pos + |a|] + buf[pos + |a|..pos + |a| + |b|];
    }
  }

  lemma AtIndex(buf: seq<Octet>, pos: nat, s: seq<Octet>, k: nat)
    requires At(buf, pos, s) && k < |s|
    ensures buf[pos + k] == s[k]
  {
    assert buf[pos..pos + |s|][k] == s[k];
  }

  // ---- names --------------------------------------------------------------

  /** The name is uncompressed and says `host`.local, up to ASCII case. */
  ghost predicate Says(n: Name, host: seq<Octet>) {
    n.ending.Root? && |n.labels| == 2 && SameText(n.labels[0], host) && SameText(n.labels[1], LOCAL)
  }

  /** Two labels and the root: the host up to ASCII case, and `local` in either case. */
  lemma SaysExactly(n: Name, host: seq<Octet>)
    ensures Says(n, host) <==>
      && n.ending.Root? && |n.labels| == 2
      && |n.labels[0]| == |host|
      && (forall k :: 0 <= k < |host| ==>
            var (a, b) := (n.labels[0][k], host[k]);
            a == b || (0x41 <= a <= 0x5A && b == a + 0x20) || (0x61 <= a <= 0x7A && b == a - 0x20))
      && |n.labels[1]| == 5
      && n.labels[1][0] in {0x4C, 0x6C} && n.labels[1][1] in {0x4F, 0x6F} && n.labels[1][2] in {0x43, 0x63}
      && n.labels[1][3] in {0x41, 0x61} && n.labels[1][4] in {0x4C, 0x6C}
  {
    hide SameText;
    if |n.labels| == 2 {
      SameTextExactly(n.labels[0], host);
      LocalExactly(n.labels[1]);
    }
  }

  lemma LabelIn(buf: seq<Octet>, pos: nat, text: seq<Octet>, rest: seq<Octet>)
    requires |text| < 256 && At(buf, pos, [|text|] + text + rest)
    ensures pos < |buf| && buf[pos] == |text| && pos + 1 + |text| <= |buf| && buf[pos + 1..pos + 1 + |text|] == text
    ensures At(buf, pos + 1 + |text|, rest)
  {
    AtConcat(buf, pos, [|text|] + text, rest);
    AtConcat(buf, pos, [|text|], text);
    AtIndex(buf, pos, [|text|], 0);
  }

  lemma {:induction false} FirstLabelAt(buf: seq<Octet>, pos: nat, n: Name)
    requires ValidName(n) && n.labels != [] && At(buf, pos, NameOctets(n))
    ensures var len := |n.labels[0]|;
      && pos < |buf| && buf[pos] == len && pos + 1 + len <= |buf| && buf[pos + 1..pos + 1 + len] == n.labels[0]
      && At(buf, pos + 1 + len, NameOctets(Name(n.labels[1..], n.ending)))
  {
    LabelIn(buf, pos, n.labels[0], NameOctets(Name(n.labels[1..], n.ending)));
  }

  lemma {:induction false} EndingAt(buf: seq<Octet>, pos: nat, n: Name)
    requires ValidName(n) && n.labels == [] && At(buf, pos, NameOctets(n))
    ensures pos < |buf|
    ensures n.ending.Root? ==> buf[pos] == 0
    ensures n.ending.Pointer? ==> pos + 1 < |buf| && IsPointer(buf[pos])
  {
    AtIndex(buf, pos, NameOctets(n), 0);
  }

  lemma {:induction false} SkipsWholeName(buf: seq<Octet>, pos: nat, n: Name)
    requires ValidName(n) && At(buf, pos, NameOctets(n))
    ensures SkipName(buf, pos) == Taken(Some(()), pos + |NameOctets(n)|)
    decreases |n.labels|
  {
    if n.labels == [] {
      EndingAt(buf, pos, n);
    } else {
      var next, rest := pos + 1 + |n.labels[0]|, Name(n.labels[1..], n.ending);
      FirstLabelAt(buf, pos, n);
      assert SkipName(buf, pos) == SkipName(buf, next);
      SkipsWholeName(buf, next, rest);
    }
  }

  /** What the walker finds in the labels from the one numbered `idx` on. */
  ghost predicate SaysFrom(n: Name, host: seq<Octet>, idx: nat)
    decreases |n.labels|
  {
    if n.labels == [] then n.ending.Root? && idx == 2
    else SaysFrom(Name(n.labels[1..], n.ending), host, NextIdx(n.labels[0], host, idx))
  }

  lemma WalkStep(buf: seq<Octet>, pos: nat, text: seq<Octet>, host: seq<Octet>, idx: nat, after: nat)
    requires 1 <= |text| <= 63 && pos + 1 + |text| <= |buf| && buf[pos] == |text|
    requires buf[pos + 1..pos + 1 + |text|] == text && after == NextIdx(text, host, idx)
    ensures NameMatches(buf, pos, host, idx) == NameMatches(buf, pos + 1 + |text|, host, after)
  {
  }

  lemma {:induction false} WalksWholeName(buf: seq<Octet>, pos: nat, n: Name, host: seq<Octet>, idx: nat)
    requires ValidName(n) && At(buf, pos, NameOctets(n))
    ensures NameMatches(buf, pos, host, idx) == Walk(SaysFrom(n, host, idx), pos + |NameOctets(n)|, true)
    decreases |n.labels|
  {
    if n.labels == [] {
      EndingAt(buf, pos, n);
    } else {
      var next, rest := pos + 1 + |n.labels[0]|, Name(n.labels[1..], n.ending);
      var after := NextIdx(n.labels[0], host, idx);
      FirstLabelAt(buf, pos, n);
      WalkStep(buf, pos, n.labels[0], host, idx, after);
      WalksWholeName(buf, next, rest, host, after);
    }
  }

  lemma {:induction false} SaysNothingPoisoned(n: Name, host: seq<Octet>, idx: nat)
    requires idx > 2
    ensures !SaysFrom(n, host, idx)
    decreases |n.labels|
  {
    if n.labels != [] {
      SaysNothingPoisoned(Name(n.labels[1..], n.ending), host, POISON);
    }
  }

  lemma {:induction false} SaysFromTwo(n: Name, host: seq<Octet>)
    ensures SaysFrom(n, host, 2) <==> n.ending.Root? && n.labels == []
  {
    if n.labels != [] {
      SaysNothingPoisoned(Name(n.labels[1..], n.ending), host, POISON);
    }
  }

  lemma {:induction false} SaysFromOne(n: Name, host: seq<Octet>)
    ensures SaysFrom(n, host, 1) <==> n.ending.Root? && |n.labels| == 1 && SameText(n.labels[0], LOCAL)
  {
    if n.labels != [] {
      var rest := Name(n.labels[1..], n.ending);
      SaysFromTwo(rest, host);
      SaysNothingPoisoned(rest, host, POISON);
    }
  }

  lemma {:induction false} SaysFromStart(n: Name, host: seq<Octet>)
    ensures SaysFrom(n, host, 0) <==> Says(n, host)
  {
    if n.labels != [] {
      var rest := Name(n.labels[1..], n.ending);
      SaysFromOne(rest, host);
      SaysNothingPoisoned(rest, host, POISON);
    }
  }

  // ---- sections -----------------------------------------------------------

  lemma U16At(buf: seq<Octet>, pos: nat, v: nat)
    requires v < 0x10000 && At(buf, pos, U16Octets(v))
    ensures pos + 2 <= |buf| && Be16(buf[pos], buf[pos + 1]) == v
  {
    AtIndex(buf, pos, U16Octets(v), 0);
    AtIndex(buf, pos, U16Octets(v), 1);
  }

  /** Where the parts of a question lie. */
  lemma QuestionAt(buf: seq<Octet>, pos: nat, q: Question)
    requires ValidQuestion(q) && At(buf, pos, QuestionOctets(q))
    ensures At(buf, pos, NameOctets(q.name))
    ensures var end := pos + |NameOctets(q.name)|;
      && |QuestionOctets(q)| == |NameOctets(q.name)| + 4 && end + 4 <= |buf|
      && Be16(buf[end], buf[end + 1]) == q.qtype && Be16(buf[end + 2], buf[end + 3]) == q.qclass
  {
    var name, qtype, qclass := NameOctets(q.name), U16Octets(q.qtype), U16Octets(q.qclass);
    AtConcat(buf, pos, name + qtype, qclass);
    AtConcat(buf, pos, name, qtype);
    U16At(buf, pos + |name|, q.qtype);
    U16At(buf, pos + |name| + 2, q.qclass);
  }

  /** Type A, class IN with or without the unicast bit. */
  ghost predicate QuestionAsks(q: Question, host: seq<Octet>) {
    Says(q.name, host) && q.qtype == 1 && (q.qclass == 0x0001 || q.qclass == 0x8001)
  }

  lemma {:induction false} QuestionTaken(buf: seq<Octet>, pos: nat, q: Question, host: seq<Octet>)
    requires ValidQuestion(q) && At(buf, pos, QuestionOctets(q))
    ensures TakeQuestion(buf, pos, host).Some?
    ensures Asks(TakeQuestion(buf, pos, host).value) <==> QuestionAsks(q, host)
    ensures NameMatches(buf, pos, host, 0).pos + 4 == pos + |QuestionOctets(q)|
  {
    hide At, NameMatches, NameOctets, SaysFrom, U16Octets, Be16;
    QuestionAt(buf, pos, q);
    WalksWholeName(buf, pos, q.name, host, 0);
    SaysFromStart(q.name, host);
  }

  ghost predicate AnyAsks(qs: seq<Question>, host: seq<Octet>) {
    exists k :: 0 <= k < |qs| && QuestionAsks(qs[k], host)
  }

  ghost predicate SomeAsks(qs: seq<Question>, host: seq<Octet>) {
    qs != [] && (QuestionAsks(qs[0], host) || SomeAsks(qs[1..], host))
  }

  lemma {:induction false} SomeIsAny(qs: seq<Question>, host: seq<Octet>)
    ensures SomeAsks(qs, host) <==> AnyAsks(qs, host)
  {
    if qs != [] {
      SomeIsAny(qs[1..], host);
      if k :| 0 <= k < |qs[1..]| && QuestionAsks(qs[1..][k], host) {
        assert QuestionAsks(qs[k + 1], host);
      }
      if k :| 0 < k < |qs| && QuestionAsks(qs[k], host) {
        assert QuestionAsks(qs[1..][k - 1], host);
      }
    }
  }

  lemma QueryStep(buf: seq<Octet>, pos: nat, q: Question, rest: seq<Octet>, n: nat, host: seq<Octet>)
    requires n > 0 && ValidQuestion(q) && At(buf, pos, QuestionOctets(q) + rest)
    ensures At(buf, pos + |QuestionOctets(q)|, rest)
    ensures QueryScan(buf, pos, n, host) <==>
      QuestionAsks(q, host) || QueryScan(buf, pos + |QuestionOctets(q)|, n - 1, host)
  {
    hide At, NameMatches, NameOctets, QuestionAsks, TakeQuestion;
    AtConcat(buf, pos, QuestionOctets(q), rest);
    QuestionTaken(buf, pos, q, host);
    var taken := TakeQuestion(buf, pos, host);
    var next := NameMatches(buf, pos, host, 0).pos + 4;
    assert QueryScan(buf, pos, n, host) <==> Asks(taken.value) || QueryScan(buf, next, n - 1, host);
  }

  lemma {:induction false} ScansQuestions(buf: seq<Octet>, pos: nat, qs: seq<Question>, host: seq<Octet>)
    requires forall k :: 0 <= k < |qs| ==> ValidQuestion(qs[k])
    requires At(buf, pos, QuestionsOctets(qs))
    ensures QueryScan(buf, pos, |qs|, host) <==> SomeAsks(qs, host)
    decreases |qs|
  {
    hide At, NameMatches, NameOctets, QuestionAsks, TakeQuestion;
    if qs != [] {
      var q, rest := qs[0], qs[1..];
      var next := pos + |QuestionOctets(q)|;
      QueryStep(buf, pos, q, QuestionsOctets(rest), |rest| + 1, host);
      ScansQuestions(buf, next, rest, host);
      assert QueryScan(buf, pos, |rest| + 1, host) <==> QuestionAsks(q, host) || SomeAsks(rest, host);
    }
  }

  lemma {:induction false} SkipsAllQuestions(buf: seq<Octet>, pos: nat, qs: seq<Question>)
    requires forall k :: 0 <= k < |qs| ==> ValidQuestion(qs[k])
    requires At(buf, pos, QuestionsOctets(qs))
    ensures SkipQuestions(buf, pos, |qs|) == Some(pos + |QuestionsOctets(qs)|)
    decreases |qs|
  {
    hide At, SkipName, NameOctets;
    if qs != [] {
      var q, rest := qs[0], qs[1..];
      AtConcat(buf, pos, QuestionOctets(q), QuestionsOctets(rest));
      QuestionAt(buf, pos, q);
      SkipsWholeName(buf, pos, q.name);
      SkipsAllQuestions(buf, pos + |QuestionOctets(q)|, rest);
    }
  }

  /** The record is an address record for `host`.local. Its class and TTL do not matter. */
  ghost predicate Answers(r: Record, host: seq<Octet>) {
    Says(r.name, host) && r.rtype == 1 && |r.rdata| == 4
  }

  /** The address in the first record that answers. */
  ghost function FirstAddress(rs: seq<Record>, host: seq<Octet>): Option<Ip> {
    if rs == [] then None
    else if Answers(rs[0], host) then Some(Ip(rs[0].rdata[0], rs[0].rdata[1], rs[0].rdata[2], rs[0].rdata[3]))
    else FirstAddress(rs[1..], host)
  }

  /** By positions: the address of a record that answers with none in front of it that does. */
  lemma {:induction false} FirstAddressExactly(rs: seq<Record>, host: seq<Octet>, ip: Ip)
    ensures FirstAddress(rs, host) == Some(ip) <==>
      exists i :: 0 <= i < |rs| && Answers(rs[i], host) && rs[i].rdata == [ip.a, ip.b, ip.c, ip.d]
                  && forall j :: 0 <= j < i ==> !Answers(rs[j], host)
  {
    hide Says;
    if rs != [] {
      var rest := rs[1..];
      FirstAddressExactly(rest, host, ip);
      assert forall i :: 0 <= i < |rest| ==> rest[i] == rs[i + 1];
      if Answers(rs[0], host) {
        var d := rs[0].rdata;
        assert d == [d[0], d[1], d[2], d[3]];
      } else {
        LaterAnswers(rs, host, ip);
      }
    }
  }

  lemma LaterAnswers(rs: seq<Record>, host: seq<Octet>, ip: Ip)
    requires rs != [] && !Answers(rs[0], host)
    ensures (exists i :: 0 <= i < |rs| && Answers(rs[i], host) && rs[i].rdata == [ip.a, ip.b, ip.c, ip.d]
                         && forall j :: 0 <= j < i ==> !Answers(rs[j], host))
       <==> (exists i :: 0 <= i < |rs[1..]| && Answers(rs[1..][i], host) && rs[1..][i].rdata == [ip.a, ip.b, ip.c, ip.d]
                         && forall j :: 0 <= j < i ==> !Answers(rs[1..][j], host))
  {
    hide Answers;
    var rest, d := rs[1..], [ip.a, ip.b, ip.c, ip.d];
    assert forall i :: 0 <= i < |rest| ==> rest[i] == rs[i + 1];
    if i :| 0 <= i < |rs| && Answers(rs[i], host) && rs[i].rdata == d
            && forall j :: 0 <= j < i ==> !Answers(rs[j], host) {
      assert rest[i - 1] == rs[i];
    }
    if i :| 0 <= i < |rest| && Answers(rest[i], host) && rest[i].rdata == d
            && forall j :: 0 <= j < i ==> !Answers(rest[j], host) {
      assert rs[i + 1] == rest[i];
      forall j | 0 <= j < i + 1 ensures !Answers(rs[j], host) {
        if j > 0 { assert rs[j] == rest[j - 1]; }
      }
    }
  }

  /** Where the parts of a record lie. */
  lemma RecordAt(buf: seq<Octet>, pos: nat, r: Record)
    requires ValidRecord(r) && At(buf, pos, RecordOctets(r))
    ensures At(buf, pos, NameOctets(r.name))
    ensures var end := pos + |NameOctets(r.name)|;
      && |RecordOctets(r)| == |NameOctets(r.name)| + 10 + |r.rdata|
      && TakeFields(buf, end) == Some((r.rtype, |r.rdata|)) && At(buf, end + 10, r.rdata)
  {
    var name, rtype, rclass := NameOctets(r.name), U16Octets(r.rtype), U16Octets(r.rclass);
    var ttl, rdlen := U32Octets(r.ttl), U16Octets(|r.rdata|);
    AtConcat(buf, pos, name + rtype + rclass + ttl + rdlen, r.rdata);
    AtConcat(buf, pos, name + rtype + rclass + ttl, rdlen);
    AtConcat(buf, pos, name + rtype + rclass, ttl);
    AtConcat(buf, pos, name + rtype, rclass);
    AtConcat(buf, pos, name, rtype);
    U16At(buf, pos + |name|, r.rtype);
    U16At(buf, pos + |name| + 8, |r.rdata|);
  }

  lemma {:induction false} AnswerFromParts(buf: seq<Octet>, pos: nat, host: seq<Octet>, w: Walk, rtype: nat, rdlen: nat)
    requires NameMatches(buf, pos, host, 0) == w && TakeFields(buf, w.pos) == Some((rtype, rdlen))
    requires w.pos + 10 + rdlen <= |buf|
    ensures TakeAnswer(buf, pos, host) ==
      if w.matched && rtype == TYPE_A && rdlen == 4 then Found(TakeIp(buf, w.pos + 10)) else Onward(w.pos + 10 + rdlen)
  {
  }

  lemma RecordTaken(buf: seq<Octet>, pos: nat, r: Record, host: seq<Octet>)
    requires ValidRecord(r) && At(buf, pos, RecordOctets(r))
    ensures TakeAnswer(buf, pos, host) ==
      if Answers(r, host) then Found(Some(Ip(r.rdata[0], r.rdata[1], r.rdata[2], r.rdata[3])))
      else Onward(pos + |RecordOctets(r)|)
  {
    hide NameMatches, TakeAnswer, TakeFields, NameOctets, SaysFrom;
    var end := pos + |NameOctets(r.name)|;
    RecordAt(buf, pos, r);
    WalksWholeName(buf, pos, r.name, host, 0);
    AnswerFromParts(buf, pos, host, Walk(SaysFrom(r.name, host, 0), end, true), r.rtype, |r.rdata|);
    SaysFromStart(r.name, host);
    if |r.rdata| == 4 {
      AddressAt(buf, end + 10, r.rdata);
    }
  }

  lemma {:induction false} ScansRecords(buf: seq<Octet>, pos: nat, rs: seq<Record>, host: seq<Octet>)
    requires forall k :: 0 <= k < |rs| ==> ValidRecord(rs[k])
    requires At(buf, pos, RecordsOctets(rs))
    ensures AnswerScan(buf, pos, |rs|, host) == FirstAddress(rs, host)
    decreases |rs|
  {
    if rs != [] {
      AtConcat(buf, pos, RecordOctets(rs[0]), RecordsOctets(rs[1..]));
      RecordTaken(buf, pos, rs[0], host);
      ScanOneMore(buf, pos, |rs|, host, TakeAnswer(buf, pos, host));
      ScansRecords(buf, pos + |RecordOctets(rs[0])|, rs[1..], host);
    }
  }

  lemma AddressAt(buf: seq<Octet>, pos: nat, rdata: seq<Octet>)
    requires |rdata| == 4 && At(buf, pos, rdata)
    ensures TakeIp(buf, pos) == Some(Ip(rdata[0], rdata[1], rdata[2], rdata[3]))
  {
    AtIndex(buf, pos, rdata, 0);
    AtIndex(buf, pos, rdata, 1);
    AtIndex(buf, pos, rdata, 2);
    AtIndex(buf, pos, rdata, 3);
  }

  // ---- messages -----------------------------------------------------------

  /** The packet holds the message's header fields and, behind them, its two sections. */
  ghost predicate Holds(pkt: seq<Octet>, m: Message)
    requires ValidMessage(m)
  {
    && |pkt| >= 12 && HeaderU16(pkt, 2) == m.flags
    && HeaderU16(pkt, 4) == |m.questions| && HeaderU16(pkt, 6) == |m.answers|
    && At(pkt, 12, QuestionsOctets(m.questions))
    && At(pkt, 12 + |QuestionsOctets(m.questions)|, RecordsOctets(m.answers))
  }

  lemma SectionsAt(m: Message)
    requires ValidMessage(m)
    ensures Holds(Octets(m), m)
  {
    var pkt, h := Octets(m), HeaderOctets(m);
    var qs, rs := QuestionsOctets(m.questions), RecordsOctets(m.answers);
    assert At(pkt, 0, pkt);
    AtConcat(pkt, 0, h + qs + rs, m.rest);
    AtConcat(pkt, 0, h + qs, rs);
    AtConcat(pkt, 0, h, qs);
    HeaderAt(pkt, m);
  }

  lemma HeaderAt(pkt: seq<Octet>, m: Message)
    requires ValidMessage(m) && At(pkt, 0, HeaderOctets(m))
    ensures |pkt| >= 12 && HeaderU16(pkt, 2) == m.flags
    ensures HeaderU16(pkt, 4) == |m.questions| && HeaderU16(pkt, 6) == |m.answers|
  {
    var id, flags, qd, an := U16Octets(m.id), U16Octets(m.flags), U16Octets(|m.questions|), U16Octets(|m.answers|);
    AtConcat(pkt, 0, id + flags + qd + an, m.otherCounts);
    AtConcat(pkt, 0, id + flags + qd, an);
    AtConcat(pkt, 0, id + flags, qd);
    AtConcat(pkt, 0, id, flags);
    U16At(pkt, 2, m.flags);
    U16At(pkt, 4, |m.questions|);
    U16At(pkt, 6, |m.answers|);
  }

  lemma QueryInPacket(pkt: seq<Octet>, m: Message, host: seq<Octet>)
    requires ValidMessage(m) && Holds(pkt, m)
    ensures IsQueryFor(pkt, host) <==> m.flags < QR && AnyAsks(m.questions, host)
  {
    ScansQuestions(pkt, 12, m.questions, host);
    SomeIsAny(m.questions, host);
  }

  lemma {:induction false} AnswerInPacket(pkt: seq<Octet>, m: Message, host: seq<Octet>)
    requires ValidMessage(m) && Holds(pkt, m)
    ensures ParseAnswer(pkt, host) == if m.flags < QR then None else FirstAddress(m.answers, host)
  {
    hide At, AnswerScan, SkipQuestions, FirstAddress;
    SkipsAllQuestions(pkt, 12, m.questions);
    ScansRecords(pkt, 12 + |QuestionsOctets(m.questions)|, m.answers, host);
  }

  /** A packet is a query for us exactly when QR is clear and one of its questions asks for our name. */
  lemma QueryIsRecognised(m: Message, host: seq<Octet>)
    requires ValidMessage(m)
    ensures IsQueryFor(Octets(m), host) <==> m.flags < 0x8000 && AnyAsks(m.questions, host)
  {
    SectionsAt(m);
    QueryInPacket(Octets(m), m, host);
  }

  /** An answer is found exactly when QR is set, and it is the first matching record's address. */
  lemma {:induction false} AnswerIsTheFirst(m: Message, host: seq<Octet>)
    requires ValidMessage(m)
    ensures ParseAnswer(Octets(m), host) == if m.flags < 0x8000 then None else FirstAddress(m.answers, host)
  {
    SectionsAt(m);
    AnswerInPacket(Octets(m), m, host);
  }

  // ---- arbitrary bytes ----------------------------------------------------

  /** `host`.local in wire form at `pos`, then type A, class, TTL, length four and this address. */
  ghost predicate AddressRecordAt(pkt: seq<Octet>, pos: nat, host: seq<Octet>, ip: Ip) {
    var end := pos + |host| + 8;
    && NameAt(pkt, pos, host) && end + 14 <= |pkt|
    && pkt[end] == 0 && pkt[end + 1] == 1 && pkt[end + 8] == 0 && pkt[end + 9] == 4
    && ip == Ip(pkt[end + 10], pkt[end + 11], pkt[end + 12], pkt[end + 13])
  }

  lemma {:induction false} MatchEnds(buf: seq<Octet>, pos: nat, host: seq<Octet>)
    requires NameMatches(buf, pos, host, 0).matched
    ensures NameAt(buf, pos, host) && NameMatches(buf, pos, host, 0).pos == pos + |host| + 8
  {
    MatchesSpelling(buf, pos, host);
    var next := pos + 1 + |host|;
    assert NameMatches(buf, pos, host, 0) == NameMatches(buf, next, host, 1);
    assert NameMatches(buf, next, host, 1) == NameMatches(buf, next + 6, host, 2);
  }

  lemma {:induction false} ScanIsSound(pkt: seq<Octet>, pos: nat, n: nat, host: seq<Octet>)
    requires AnswerScan(pkt, pos, n, host).Some?
    ensures exists at :: pos <= at && AddressRecordAt(pkt, at, host, AnswerScan(pkt, pos, n, host).value)
    decreases n
  {
    hide SameText;
    match TakeAnswer(pkt, pos, host) {
      case Found(ip) =>
        MatchEnds(pkt, pos, host);
        assert AddressRecordAt(pkt, pos, host, ip.value);
      case Onward(next) =>
        ScanIsSound(pkt, next, n - 1, host);
        var at :| next <= at && AddressRecordAt(pkt, at, host, AnswerScan(pkt, next, n - 1, host).value);
        assert AddressRecordAt(pkt, at, host, AnswerScan(pkt, pos, n, host).value);
    }
  }

  /** Whatever the bytes: an address is only ever read from an address record for the name, in a response. */
  lemma AnswerIsSound(pkt: seq<Octet>, host: seq<Octet>)
    requires ParseAnswer(pkt, host).Some?
    ensures |pkt| >= 12 && pkt[2] >= 0x80
    ensures exists at :: 12 <= at && AddressRecordAt(pkt, at, host, ParseAnswer(pkt, host).value)
  {
    var start := SkipQuestions(pkt, 12, HeaderU16(pkt, 4)).value;
    QuestionsAdvance(pkt, 12, HeaderU16(pkt, 4));
    ScanIsSound(pkt, start, HeaderU16(pkt, 6), host);
  }

  /** `host`.local in wire form at `pos`, then type A and class IN under the unicast bit. */
  ghost predicate AddressQuestionAt(pkt: seq<Octet>, pos: nat, host: seq<Octet>) {
    var end := pos + |host| + 8;
    && NameAt(pkt, pos, host) && end + 4 <= |pkt|
    && pkt[end] == 0 && pkt[end + 1] == 1 && pkt[end + 2] in {0x00, 0x80} && pkt[end + 3] == 1
  }

  lemma {:induction false} QueryScanIsSound(pkt: seq<Octet>, pos: nat, n: nat, host: seq<Octet>)
    requires QueryScan(pkt, pos, n, host)
    ensures exists at :: pos <= at && AddressQuestionAt(pkt, at, host)
    decreases n
  {
    hide NameMatches, SameText;
    var next := NameMatches(pkt, pos, host, 0).pos + 4;
    if Asks(TakeQuestion(pkt, pos, host).value) {
      MatchEnds(pkt, pos, host);
      assert AddressQuestionAt(pkt, pos, host);
    } else {
      QueryScanIsSound(pkt, next, n - 1, host);
    }
  }

  /** Whatever the bytes: only a packet with QR clear that holds an address question for the name is taken
      for a query. */
  lemma QueryIsSound(pkt: seq<Octet>, host: seq<Octet>)
    requires IsQueryFor(pkt, host)
    ensures |pkt| >= 12 && pkt[2] < 0x80
    ensures exists at :: 12 <= at && AddressQuestionAt(pkt, at, host)
  {
    QueryScanIsSound(pkt, 12, HeaderU16(pkt, 4), host);
  }

  lemma {:induction false} QuestionsAdvance(buf: seq<Octet>, pos: nat, n: nat)
    requires SkipQuestions(buf, pos, n).Some?
    ensures pos <= SkipQuestions(buf, pos, n).value
    decreases n
  {
    if n != 0 {
      QuestionsAdvance(buf, SkipName(buf, pos).pos + 4, n - 1);
    }
  }

  /** A name that runs off the packet ends the parse: no question after it is believed, no answer found. */
  lemma {:induction false} RunOffEndsTheScan(pkt: seq<Octet>, pos: nat, n: nat, host: seq<Octet>)
    requires !NameMatches(pkt, pos, host, 0).complete
    ensures !QueryScan(pkt, pos, n, host) && AnswerScan(pkt, pos, n, host) == None
  {
  }
}
