/** The NETCONF message reader of `subsystem_netconf.c`: it reads until it sees a closing tag and,
    after it, the end-of-message mark of RFC 6242 section 4.3. */
module Netconf {
  import opened Wire
  import opened Text

  const NUL: byte := 0

  /** The bytes of "]]>]]>". */
  const MARK: seq<byte> := [93, 93, 62, 93, 93, 62]

  /** The bytes of a text in ASCII. */
  function Bytes(text: string): seq<byte> {
    seq(|text|, i requires 0 <= i < |text| => (text[i] as int % 128) as byte)
  }

  lemma TheMark()
    ensures MARK == Bytes("]]>]]>")
    ensures |MARK| == 6 && forall i :: 0 <= i < 6 ==> MARK[i] as int == "]]>]]>"[i] as int
    ensures NUL as int == 0
  {
    assert MARK == Bytes("]]>]]>");
  }

  /** Where the search over the text so far finds the mark. It starts at the tag, not after it. */
  function Locate(text: seq<byte>, tag: seq<byte>): Option<nat> {
    match Find(text, tag)
    case None => None
    case Some(p) =>
      match Find(text[p..], MARK)
      case None => None
      case Some(q) => Some(p + q)
  }

  /** The search over what has been received, which C sees as a string. */
  function Search(received: seq<byte>, tag: seq<byte>): Option<nat> {
    Locate(CString(received, NUL), tag)
  }

  /** The reader, after `rd` bytes of the stream: its result and how much of the stream it took. */
  function Receive(stream: seq<byte>, tag: seq<byte>, cap: nat, rd: nat, script: seq<Reply>): (r: (Option<nat>, nat))
    requires rd <= cap && rd <= |stream|
    ensures rd <= r.1 <= cap && r.1 <= |stream|
    decreases |script|
  {
    match Answer(script, Min(cap - rd, |stream| - rd))
    case Error => (None, rd)
    case Again => if rd < cap then Receive(stream, tag, cap, rd, Rest(script)) else (None, rd)
    case Count(n) =>
      var found := Search(stream[..rd + n], tag);
      if found.Some? || rd + n == cap then (found, rd + n)
      else Receive(stream, tag, cap, rd + n, Rest(script))
  }

  /** One read of the reader. */
  lemma ReceiveStep(stream: seq<byte>, tag: seq<byte>, cap: nat, rd: nat, script: seq<Reply>, r: Reply)
    requires rd <= cap && rd <= |stream| && r == Answer(script, Min(cap - rd, |stream| - rd))
    ensures r == Error ==> Receive(stream, tag, cap, rd, script) == (None, rd)
    ensures r == Again && rd < cap ==>
              Receive(stream, tag, cap, rd, script) == Receive(stream, tag, cap, rd, Rest(script))
    ensures r == Again && rd == cap ==> Receive(stream, tag, cap, rd, script) == (None, rd)
    ensures r.Count? && Search(stream[..rd + r.n], tag).None? && rd + r.n < cap ==>
              Receive(stream, tag, cap, rd, script) == Receive(stream, tag, cap, rd + r.n, Rest(script))
    ensures r.Count? && (Search(stream[..rd + r.n], tag).Some? || rd + r.n == cap) ==>
              Receive(stream, tag, cap, rd, script) == (Search(stream[..rd + r.n], tag), rd + r.n)
  {
  }

  /** A mark that has been found stays where it is when more is received. */
  lemma FoundForGood(a: seq<byte>, b: seq<byte>, tag: seq<byte>)
    requires a <= b && Search(a, tag).Some?
    ensures Search(b, tag) == Search(a, tag)
  {
    CStringOfLonger(a, b, NUL);
    var s, t := CString(a, NUL), CString(b, NUL);
    FindInLonger(s, t, tag);
    var p := Find(s, tag).value;
    FindInLonger(s[p..], t[p..], MARK);
  }

  /** Whatever the replies are, the result is that of one search over what has been received in the
      end, success and failure alike. */
  lemma {:induction false} ResultIsSearch(stream: seq<byte>, tag: seq<byte>, cap: nat, rd: nat, script: seq<Reply>)
    requires rd <= cap && rd <= |stream| && Search(stream[..rd], tag).None?
    ensures var (found, got) := Receive(stream, tag, cap, rd, script);
            found == Search(stream[..got], tag)
    decreases |script|
  {
    match Answer(script, Min(cap - rd, |stream| - rd))
    case Error =>
    case Again => if rd < cap { ResultIsSearch(stream, tag, cap, rd, Rest(script)); }
    case Count(n) =>
      if Search(stream[..rd + n], tag).None? && rd + n < cap {
        ResultIsSearch(stream, tag, cap, rd + n, Rest(script));
      }
  }

  /** The result does not depend on how the stream is cut into reads, or on the buffer size. */
  lemma FragmentationDoesNotMatter(
    stream: seq<byte>, tag: seq<byte>, cap1: nat, script1: seq<Reply>, cap2: nat, script2: seq<Reply>)
    ensures var (found1, _) := Receive(stream, tag, cap1, 0, script1);
            var (found2, _) := Receive(stream, tag, cap2, 0, script2);
            found1.Some? && found2.Some? ==> found1 == found2
  {
    var (found1, got1) := Receive(stream, tag, cap1, 0, script1);
    var (found2, got2) := Receive(stream, tag, cap2, 0, script2);
    NothingInNothing(stream, tag);
    ResultIsSearch(stream, tag, cap1, 0, script1);
    ResultIsSearch(stream, tag, cap2, 0, script2);
    if found1.Some? && found2.Some? {
      if got1 <= got2 {
        FoundForGood(stream[..got1], stream[..got2], tag);
      } else {
        FoundForGood(stream[..got2], stream[..got1], tag);
      }
    }
  }

  /** How much of the stream a call can get to see. */
  function Reach(stream: seq<byte>, cap: nat, script: seq<Reply>): (n: nat)
    ensures n <= |stream|
  {
    Min(Min(cap, |stream|), Supply(script))
  }

  /** The result is also that of one search over all the call could have received, although it stops
      at the first end it finds. */
  lemma {:induction false} ReceiveIsOneSearch(stream: seq<byte>, tag: seq<byte>, cap: nat, rd: nat, script: seq<Reply>)
    requires rd <= cap && rd <= |stream| && Search(stream[..rd], tag).None?
    ensures Receive(stream, tag, cap, rd, script).0
         == Search(stream[..Min(Min(cap, |stream|), rd + Supply(script))], tag)
    decreases |script|
  {
    if script != [] && script[0] != Error {
      var n := CountOf(Answer(script, Min(cap, |stream|) - rd));
      if Search(stream[..rd + n], tag).Some? {
        FoundForGood(stream[..rd + n], stream[..Min(Min(cap, |stream|), rd + Supply(script))], tag);
      } else if rd + n < cap {
        ReceiveIsOneSearch(stream, tag, cap, rd + n, Rest(script));
      }
    }
  }

  /** The closing tag at `p` and the mark at `q`: each the first of its kind, and no NUL before the
      end of either. */
  ghost predicate MessageEnd(text: seq<byte>, tag: seq<byte>, p: nat, q: nat) {
    && FirstOccurrence(text, tag, p)
    && p <= q && Occurs(text, MARK, q) && (forall j: nat :: p <= j < q ==> !Occurs(text, MARK, j))
    && NUL !in text[..p + |tag|] && NUL !in text[..q + |MARK|]
  }

  /** The two searches on a text without NUL. */
  lemma LocateMeans(s: seq<byte>, tag: seq<byte>, q: nat)
    requires NUL !in s
    ensures Locate(s, tag) == Some(q) <==> exists p: nat :: MessageEnd(s, tag, p, q)
  {
    if Locate(s, tag) == Some(q) {
      LocatedIsEnd(s, tag, q);
    }
    if p: nat :| MessageEnd(s, tag, p, q) {
      EndIsLocated(s, tag, p, q);
    }
  }

  lemma LocatedIsEnd(s: seq<byte>, tag: seq<byte>, q: nat)
    requires NUL !in s && Locate(s, tag) == Some(q)
    ensures MessageEnd(s, tag, Find(s, tag).value, q)
  {
    var p := Find(s, tag).value;
    FindMeans(s, tag);
    FindMeans(s[p..], MARK);
    forall j: nat | p <= j <= q ensures Occurs(s, MARK, j) <==> Occurs(s[p..], MARK, j - p) {
      SuffixOccurs(s, p, MARK, j - p);
    }
  }

  lemma EndIsLocated(s: seq<byte>, tag: seq<byte>, p: nat, q: nat)
    requires MessageEnd(s, tag, p, q)
    ensures Locate(s, tag) == Some(q)
  {
    FindIs(s, tag, p);
    forall j: nat | j <= q - p ensures Occurs(s[p..], MARK, j) <==> Occurs(s, MARK, p + j) {
      SuffixOccurs(s, p, MARK, j);
    }
    FindIs(s[p..], MARK, q - p);
  }

  /** Cutting the text behind the tag and the mark changes nothing. */
  lemma MessageEndInPrefix(s: seq<byte>, text: seq<byte>, tag: seq<byte>, p: nat, q: nat)
    requires s <= text && p + |tag| <= |s| && q + |MARK| <= |s|
    ensures MessageEnd(s, tag, p, q) <==> MessageEnd(text, tag, p, q)
  {
    forall j: nat ensures Occurs(s, tag, j) <==> Occurs(text, tag, j) && j + |tag| <= |s| {
      PrefixOccurs(s, text, tag, j);
    }
    forall j: nat ensures Occurs(s, MARK, j) <==> Occurs(text, MARK, j) && j + |MARK| <= |s| {
      PrefixOccurs(s, text, MARK, j);
    }
    assert s[..p + |tag|] == text[..p + |tag|] && s[..q + |MARK|] == text[..q + |MARK|];
  }

  /** What the search finds, without reference to C strings or to the order of the two searches. */
  lemma SearchMeans(text: seq<byte>, tag: seq<byte>, q: nat)
    ensures Search(text, tag) == Some(q) <==> exists p: nat :: MessageEnd(text, tag, p, q)
  {
    var s := CString(text, NUL);
    CStringMeans(text, NUL);
    LocateMeans(s, tag, q);
    if p: nat :| MessageEnd(s, tag, p, q) {
      MessageEndInPrefix(s, text, tag, p, q);
    }
    if p: nat :| MessageEnd(text, tag, p, q) {
      CStringCovers(text, NUL, p + |tag|);
      CStringCovers(text, NUL, q + |MARK|);
      MessageEndInPrefix(s, text, tag, p, q);
    }
  }

  /** For a tag without ']' the mark comes after the whole tag. */
  lemma MarkFollowsTag(text: seq<byte>, tag: seq<byte>, p: nat, q: nat)
    requires MessageEnd(text, tag, p, q) && MARK[0] !in tag
    ensures p + |tag| <= q
  {
    CoveredPlace(text, MARK, q, q);
    if q < p + |tag| {
      CoveredPlace(text, tag, p, q);
    }
  }

  /** The reader succeeds exactly when the message ends within what it can get to see: the first `cap`
      bytes of the stream, and no more than the reads bring before an error. */
  lemma SucceedsExactlyWhen(stream: seq<byte>, tag: seq<byte>, cap: nat, script: seq<Reply>, q: nat)
    ensures Receive(stream, tag, cap, 0, script).0 == Some(q)
       <==> exists p: nat :: MessageEnd(stream[..Reach(stream, cap, script)], tag, p, q)
  {
    NothingInNothing(stream, tag);
    ReceiveIsOneSearch(stream, tag, cap, 0, script);
    SearchMeans(stream[..Reach(stream, cap, script)], tag, q);
  }

  lemma NothingInNothing(stream: seq<byte>, tag: seq<byte>)
    ensures Search(stream[..0], tag).None?
  {
    if Search(stream[..0], tag).Some? {
      SearchMeans(stream[..0], tag, Search(stream[..0], tag).value);
    }
  }

  /** A message that can be framed: it has the tag, and neither NUL nor "]]>". */
  ghost predicate Framable(message: seq<byte>, tag: seq<byte>) {
    NUL !in message && Find(message, tag).Some? && forall j: nat :: !Occurs(message, MARK[..3], j)
  }

  /** Round trip: a framed message is read back exactly, whatever follows its mark, if message and mark
      are within reach; otherwise nothing is. */
  lemma FramedMessageIsRead(message: seq<byte>, tag: seq<byte>, more: seq<byte>, cap: nat, script: seq<Reply>)
    requires Framable(message, tag)
    ensures Receive(message + MARK + more, tag, cap, 0, script).0
         == if |message + MARK| <= Min(cap, Supply(script)) then Some(|message|) else None
  {
    var stream := message + MARK + more;
    var n := Reach(stream, cap, script);
    NothingInNothing(stream, tag);
    ReceiveIsOneSearch(stream, tag, cap, 0, script);
    FramedMessageIsRecovered(message, tag, more);
    if |message + MARK| <= n {
      assert stream[..n] == message + MARK + more[..n - |message + MARK|];
      FramedMessageIsRecovered(message, tag, more[..n - |message + MARK|]);
    } else if Search(stream[..n], tag).Some? {
      FoundForGood(stream[..n], stream, tag);
      SearchMeans(stream[..n], tag, |message|);
    }
  }

  /** The same on the literal text of the mark. A message that has the tag, and neither NUL nor "]]>", is
      read back with the length it has. */
  lemma LiteralMessageIsRead(message: string, tag: string, more: seq<byte>, cap: nat, script: seq<Reply>)
    requires forall c :: c in message + tag ==> 0 < c as int < 128
    requires Find(message, tag).Some? && Find(message, "]]>").None?
    ensures Receive(Bytes(message + "]]>]]>") + more, Bytes(tag), cap, 0, script).0
         == if |message| + 6 <= Min(cap, Supply(script)) then Some(|message|) else None
  {
    TheMark();
    LiteralIsFramable(message, tag);
    assert Bytes(message + "]]>]]>") == Bytes(message) + MARK;
    FramedMessageIsRead(Bytes(message), Bytes(tag), more, cap, script);
  }

  lemma LiteralIsFramable(message: string, tag: string)
    requires forall c :: c in message + tag ==> 0 < c as int < 128
    requires Find(message, tag).Some? && Find(message, "]]>").None?
    ensures Framable(Bytes(message), Bytes(tag))
  {
    TheMark();
    FindMeans(message, tag);
    FindMeans(message, "]]>");
    FindMeans(Bytes(message), Bytes(tag));
    assert MARK[..3] == Bytes("]]>");
    assert Occurs(Bytes(message), Bytes(tag), Find(message, tag).value) by {
      SameOccurrences(message, tag, Find(message, tag).value);
    }
    forall c | c in message + "]]>" ensures c as int < 128 {
      if c in message {
        assert c in message + tag;
      }
    }
    forall j: nat ensures !Occurs(Bytes(message), MARK[..3], j) {
      SameOccurrences(message, "]]>", j);
    }
    forall i | 0 <= i < |message| ensures Bytes(message)[i] != NUL {
      assert message[i] in message + tag;
    }
  }

  lemma SameOccurrences(s: string, pat: string, j: nat)
    requires forall c :: c in s + pat ==> c as int < 128
    ensures Occurs(Bytes(s), Bytes(pat), j) <==> Occurs(s, pat, j)
  {
    if j + |pat| <= |s| {
      var a, b := s[j..j + |pat|], Bytes(s)[j..j + |pat|];
      forall i | 0 <= i < |pat| ensures b[i] == Bytes(pat)[i] <==> a[i] == pat[i] {
        assert s[j + i] in s + pat && pat[i] in s + pat;
      }
      if b == Bytes(pat) {
        assert forall i :: 0 <= i < |pat| ==> b[i] == Bytes(pat)[i];
        assert a == pat;
      }
      if a == pat {
        assert forall i :: 0 <= i < |pat| ==> a[i] == pat[i];
        assert b == Bytes(pat);
      }
    }
  }

  lemma FramedMessageIsRecovered(message: seq<byte>, tag: seq<byte>, more: seq<byte>)
    requires Framable(message, tag)
    ensures Search(message + MARK + more, tag) == Some(|message|)
  {
    var text := message + MARK + more;
    var p := Find(message, tag).value;
    FindInLonger(message, text, tag);
    FindMeans(text, tag);
    FindMeans(message, tag);
    assert text[|message|..|message| + |MARK|] == MARK;
    assert NUL !in text[..|message| + |MARK|];
    forall j: nat | j < |message| ensures !Occurs(text, MARK, j) {
      NoMarkInside(message, more, j);
    }
    assert MessageEnd(text, tag, p, |message|);
    SearchMeans(text, tag, |message|);
  }

  lemma NoMarkInside(message: seq<byte>, more: seq<byte>, j: nat)
    requires j < |message| && !Occurs(message, MARK[..3], j)
    ensures !Occurs(message + MARK + more, MARK, j)
  {
    var text := message + MARK + more;
    if j + 3 <= |message| {
      assert text[j..j + 3] == message[j..j + 3];
      assert text[j..j + 6][..3] == text[j..j + 3];
    } else {
      assert text[j + 2] == 93;
      assert text[j..j + 6][2] == text[j + 2];
    }
  }

  /** The call reports a message, and it is this one. */
  ghost predicate IsReadAs(stream: seq<byte>, tag: seq<byte>, cap: nat, script: seq<Reply>, message: seq<byte>) {
    var found := Receive(stream, tag, cap, 0, script).0;
    found == Some(|message|) && message <= stream
  }

  /** A call that succeeds has received the mark. */
  lemma TakesTheMark(stream: seq<byte>, tag: seq<byte>, cap: nat, script: seq<Reply>)
    requires Receive(stream, tag, cap, 0, script).0.Some?
    ensures var (found, got) := Receive(stream, tag, cap, 0, script);
            found.value + |MARK| <= got && Occurs(stream, MARK, found.value)
  {
    var (found, got) := Receive(stream, tag, cap, 0, script);
    NothingInNothing(stream, tag);
    ResultIsSearch(stream, tag, cap, 0, script);
    SearchMeans(stream[..got], tag, found.value);
    PrefixOccurs(stream[..got], stream, MARK, found.value);
  }

  /** The reads bring exactly `n` bytes before any more, into a buffer of `cap` bytes. */
  predicate LandsOn(n: nat, cap: nat, script: seq<Reply>) {
    n == 0 ||
    (script != [] && script[0] != Error && n <= cap &&
     var k := Min(CountOf(script[0]), cap);
     k <= n && LandsOn(n - k, cap - k, script[1..]))
  }

  /** The stream goes on behind `end`, and that is where the search first succeeds. */
  ghost predicate FirstEnd(stream: seq<byte>, tag: seq<byte>, end: nat) {
    && end < |stream| && Search(stream[..end], tag).Some?
    && forall n: nat :: n < end ==> Search(stream[..n], tag).None?
  }

  /** How much a call takes, after `rd` bytes, that goes on until it has reached `end`. */
  function TakenUpTo(end: nat, size: nat, cap: nat, rd: nat, script: seq<Reply>): (taken: nat)
    requires rd <= cap && rd <= size
    ensures rd <= taken <= cap
    decreases |script|
  {
    match Answer(script, Min(cap - rd, size - rd))
    case Error => rd
    case Again => if rd < cap then TakenUpTo(end, size, cap, rd, Rest(script)) else rd
    case Count(n) => if end <= rd + n || rd + n == cap then rd + n else TakenUpTo(end, size, cap, rd + n, Rest(script))
  }

  lemma FoundFromThereOn(stream: seq<byte>, tag: seq<byte>, end: nat, n: nat)
    requires FirstEnd(stream, tag, end) && n <= |stream|
    ensures Search(stream[..n], tag).Some? <==> end <= n
  {
    if end <= n {
      FoundForGood(stream[..end], stream[..n], tag);
    }
  }

  lemma {:induction false} ReceivesUpTo(stream: seq<byte>, tag: seq<byte>, end: nat,
                                        cap: nat, rd: nat, script: seq<Reply>)
    requires FirstEnd(stream, tag, end) && rd < end && rd <= cap
    ensures Receive(stream, tag, cap, rd, script).1 == TakenUpTo(end, |stream|, cap, rd, script)
    decreases |script|
  {
    var r := Answer(script, Min(cap - rd, |stream| - rd));
    ReceiveStep(stream, tag, cap, rd, script, r);
    match r
    case Error =>
    case Again => if rd < cap { ReceivesUpTo(stream, tag, end, cap, rd, Rest(script)); }
    case Count(n) =>
      FoundFromThereOn(stream, tag, end, rd + n);
      if rd + n < end && rd + n < cap {
        ReceivesUpTo(stream, tag, end, cap, rd + n, Rest(script));
      }
  }

  /** Such a call takes nothing past the end exactly if the reads land on it. */
  lemma {:induction false} StopsAtTheEnd(end: nat, size: nat, cap: nat, rd: nat, script: seq<Reply>)
    requires rd < end < size && rd <= cap
    ensures TakenUpTo(end, size, cap, rd, script) == end <==> LandsOn(end - rd, cap - rd, script)
    decreases |script|
  {
    if script != [] && script[0] != Error && end <= cap {
      var k := Min(CountOf(script[0]), cap - rd);
      if rd + k < end {
        StopsAtTheEnd(end, size, cap, rd + k, script[1..]);
      }
    }
  }

  lemma NoEndBefore(message: seq<byte>, tag: seq<byte>, next: seq<byte>, n: nat)
    requires Framable(message, tag) && n < |message + MARK|
    ensures Search((message + MARK + next)[..n], tag).None?
  {
    var stream := message + MARK + next;
    FramedMessageIsRecovered(message, tag, next);
    if Search(stream[..n], tag).Some? {
      FoundForGood(stream[..n], stream, tag);
      SearchMeans(stream[..n], tag, |message|);
    }
  }

  lemma TakesNothingPastItsMark(message: seq<byte>, tag: seq<byte>, next: seq<byte>, cap: nat, script: seq<Reply>)
    requires Framable(message, tag) && next != []
    ensures Receive(message + MARK + next, tag, cap, 0, script).1 == |message + MARK|
       <==> LandsOn(|message + MARK|, cap, script)
  {
    var stream, end := message + MARK + next, |message + MARK|;
    assert stream[..end] == message + MARK + [];
    FramedMessageIsRecovered(message, tag, []);
    forall n: nat | n < end ensures Search(stream[..n], tag).None? {
      NoEndBefore(message, tag, next, n);
    }
    ReceivesUpTo(stream, tag, end, cap, 0, script);
    StopsAtTheEnd(end, |stream|, cap, 0, script);
  }

  lemma {:induction false} LandingIsInReach(n: nat, cap: nat, script: seq<Reply>)
    requires LandsOn(n, cap, script)
    ensures n <= Min(cap, Supply(script)) || n == 0
    decreases |script|
  {
    if n > 0 {
      LandingIsInReach(n - Min(CountOf(script[0]), cap), cap - Min(CountOf(script[0]), cap), script[1..]);
    }
  }

  /** Two framed messages on one channel, and whatever the server sends after them. */
  function TwoMessages(first: seq<byte>, second: seq<byte>, more: seq<byte>): seq<byte> {
    first + MARK + (second + MARK + more)
  }

  /** Two calls of the reader. */
  datatype Reading = Reading(tag: seq<byte>, cap: nat, script: seq<Reply>)

  /** The first call reads the first message, and the second one the second. */
  ghost predicate BothAreRead(first: seq<byte>, c1: Reading, second: seq<byte>, c2: Reading, more: seq<byte>) {
    var stream := TwoMessages(first, second, more);
    var (found, got) := Receive(stream, c1.tag, c1.cap, 0, c1.script);
    found == Some(|first|) && IsReadAs(stream[got..], c2.tag, c2.cap, c2.script, second)
  }

  lemma BothAreReadIf(first: seq<byte>, c1: Reading, second: seq<byte>, c2: Reading, more: seq<byte>)
    requires Framable(first, c1.tag) && Framable(second, c2.tag)
    requires LandsOn(|first + MARK|, c1.cap, c1.script) && |second + MARK| <= Min(c2.cap, Supply(c2.script))
    ensures BothAreRead(first, c1, second, c2, more)
  {
    var next := second + MARK + more;
    LandingIsInReach(|first + MARK|, c1.cap, c1.script);
    FramedMessageIsRead(first, c1.tag, next, c1.cap, c1.script);
    TakesNothingPastItsMark(first, c1.tag, next, c1.cap, c1.script);
    assert TwoMessages(first, second, more)[|first + MARK|..] == next;
    FramedMessageIsRead(second, c2.tag, more, c2.cap, c2.script);
  }

  lemma BothAreReadOnlyIf(first: seq<byte>, c1: Reading, second: seq<byte>, c2: Reading)
    requires Framable(first, c1.tag) && Framable(second, c2.tag) && BothAreRead(first, c1, second, c2, [])
    ensures LandsOn(|first + MARK|, c1.cap, c1.script) && |second + MARK| <= Min(c2.cap, Supply(c2.script))
  {
    var stream, next := TwoMessages(first, second, []), second + MARK + [];
    var got := Receive(stream, c1.tag, c1.cap, 0, c1.script).1;
    TakesTheMark(stream, c1.tag, c1.cap, c1.script);
    var skipped := got - |first + MARK|;
    assert stream[got..] == next[skipped..];
    TakesTheMark(stream[got..], c2.tag, c2.cap, c2.script);
    assert skipped == 0;
    TakesNothingPastItsMark(first, c1.tag, next, c1.cap, c1.script);
    FramedMessageIsRead(second, c2.tag, [], c2.cap, c2.script);
  }

  /** Two messages on one channel, read by one call each. Both are read, whatever comes after them, exactly
      when the reads of the first call land on the end of its mark, and the second message is within reach
      of the second call. What the first call takes past its mark is lost. */
  lemma BothAreReadExactlyWhen(first: seq<byte>, c1: Reading, second: seq<byte>, c2: Reading)
    requires Framable(first, c1.tag) && Framable(second, c2.tag)
    ensures (forall more: seq<byte> :: BothAreRead(first, c1, second, c2, more))
       <==> LandsOn(|first + MARK|, c1.cap, c1.script) && |second + MARK| <= Min(c2.cap, Supply(c2.script))
  {
    if LandsOn(|first + MARK|, c1.cap, c1.script) && |second + MARK| <= Min(c2.cap, Supply(c2.script)) {
      forall more: seq<byte> ensures BothAreRead(first, c1, second, c2, more) {
        BothAreReadIf(first, c1, second, c2, more);
      }
    } else if BothAreRead(first, c1, second, c2, []) {
      BothAreReadOnlyIf(first, c1, second, c2);
    }
  }

  lemma NotReadFromLater(message: seq<byte>, more: seq<byte>, skipped: nat)
    requires forall j: nat :: !Occurs(message, MARK[..3], j)
    requires 0 < skipped <= |message + MARK + more| && (skipped <= |message| || more == [])
    ensures var next := message + MARK + more;
            !(message <= next[skipped..] && Occurs(next, MARK, skipped + |message|))
  {
    var next, at := message + MARK + more, skipped + |message|;
    if skipped >= 3 {
      if skipped <= |message| && message <= next[skipped..] {
        MarkWouldBeInside(message, more, skipped);
      }
    } else if at + |MARK| <= |next| {
      assert next[at..at + |MARK|][2 - skipped] == next[|message| + 2];
    }
  }

  lemma MarkWouldBeInside(message: seq<byte>, more: seq<byte>, skipped: nat)
    requires 3 <= skipped <= |message| && message <= (message + MARK + more)[skipped..]
    ensures Occurs(message, MARK[..3], |message| - skipped)
  {
    var next, n := message + MARK + more, |message|;
    assert next[skipped..][..n] == message;
    assert message[n - skipped..n - skipped + 3] == next[n..n + 3];
  }

  /** A first call that stops inside the second message, or a server that sends nothing after that one:
      then the second call cannot get the second message unless the first took nothing of it. */
  lemma SecondMessageIsReadExactlyWhen(first: seq<byte>, tag1: seq<byte>, cap1: nat, script1: seq<Reply>,
                                       second: seq<byte>, tag2: seq<byte>, cap2: nat, script2: seq<Reply>,
                                       more: seq<byte>)
    requires Framable(first, tag1) && |first + MARK| <= Min(cap1, Supply(script1))
    requires Framable(second, tag2) && |second + MARK| <= Min(cap2, Supply(script2))
    ensures var stream := first + MARK + (second + MARK + more);
            var got := Receive(stream, tag1, cap1, 0, script1).1;
            got <= |first + MARK + second| || more == [] ==>
              (IsReadAs(stream[got..], tag2, cap2, script2, second) <==> got == |first + MARK|)
  {
    var next := second + MARK + more;
    var stream := first + MARK + next;
    var (found, got) := Receive(stream, tag1, cap1, 0, script1);
    FramedMessageIsRead(first, tag1, next, cap1, script1);
    TakesTheMark(stream, tag1, cap1, script1);
    var skipped := got - |first + MARK|;
    assert stream[got..] == next[skipped..];
    if skipped == 0 {
      FramedMessageIsRead(second, tag2, more, cap2, script2);
    } else if more == [] || skipped <= |second| {
      NotReadAs(second, tag2, cap2, script2, more, skipped);
    }
  }

  lemma NotReadAs(message: seq<byte>, tag: seq<byte>, cap: nat, script: seq<Reply>, more: seq<byte>, skipped: nat)
    requires Framable(message, tag) && 0 < skipped <= |message + MARK + more| && (skipped <= |message| || more == [])
    ensures !IsReadAs((message + MARK + more)[skipped..], tag, cap, script, message)
  {
    var next := message + MARK + more;
    NotReadFromLater(message, more, skipped);
    SuffixOccurs(next, skipped, MARK, |message|);
    if Receive(next[skipped..], tag, cap, 0, script).0.Some? {
      TakesTheMark(next[skipped..], tag, cap, script);
    }
  }

  /** A server that sends both messages at once, and a read that brings both. */
  lemma BothMessagesInOneRead(first: seq<byte>, tag1: seq<byte>, second: seq<byte>, tag2: seq<byte>, cap: nat)
    requires Framable(first, tag1) && Framable(second, tag2) && |first + MARK + second + MARK| <= cap
    ensures var stream := first + MARK + (second + MARK);
            Receive(stream, tag1, cap, 0, [Count(|stream|)]) == (Some(|first|), |stream|)
  {
    FramedMessageIsRecovered(first, tag1, second + MARK);
    var stream := first + MARK + (second + MARK);
    assert stream[..|stream|] == stream;
  }

  /** The two `strstr` calls on a buffer that holds `received`, followed by zeros. */
  method SearchBuffer(buf: array<byte>, tag: seq<byte>, ghost received: seq<byte>) returns (found: Option<nat>)
    requires |received| <= buf.Length && buf[..|received|] == received
    requires forall i :: |received| <= i < buf.Length ==> buf[i] == 0
    ensures found == Search(received, tag)
  {
    PaddedWithZeros(buf[..], received);
    var text := CString(buf[..], NUL);
    found := None;
    var endreply := Find(text, tag);
    if endreply.Some? {
      var mark := Find(text[endreply.value..], MARK);
      if mark.Some? {
        found := Some(endreply.value + mark.value);
      }
    }
  }

  lemma PaddedWithZeros(buf: seq<byte>, received: seq<byte>)
    requires received <= buf && forall i :: |received| <= i < |buf| ==> buf[i] == 0
    ensures CString(buf, NUL) == CString(received, NUL)
  {
    CStringMeans(received, NUL);
    var r := CString(received, NUL);
    assert r == buf[..|r|];
    CStringIs(buf, NUL, |r|);
  }

  /** The loop of `netconf_read_until`. The search is repeated on the whole buffer after every read. */
  method ReadToMark(channel: Reader, tag: seq<byte>, buf: array<byte>) returns (special: Option<nat>, rd: nat)
    requires Filled(buf, 0, channel.stream)
    modifies channel, buf
    ensures Receive(old(channel.stream), tag, buf.Length, 0, old(channel.script)) == (special, rd)
    ensures Filled(buf, rd, old(channel.stream)) && channel.stream == old(channel.stream)[rd..]
  {
    ghost var stream := channel.stream;
    ghost var goal := Receive(stream, tag, buf.Length, 0, channel.script);
    special, rd := None, 0;
    var again := true;
    while again
      invariant Filled(buf, rd, stream) && channel.stream == stream[rd..]
      invariant again ==> special.None? && Receive(stream, tag, buf.Length, rd, channel.script) == goal
      invariant !again ==> goal == (special, rd)
      decreases again, |channel.script|
    {
      ghost var script := channel.script;
      var n := ReadMore(channel, buf, rd, stream);
      ReceiveStep(stream, tag, buf.Length, rd, script, n);
      if n == Again {
        again := special.None? && rd < buf.Length;
        continue;
      } else if !n.Count? {
        return None, rd;
      }
      rd := rd + n.n;
      special := SearchBuffer(buf, tag, stream[..rd]);
      again := special.None? && rd < buf.Length;
    }
  }

  /** `netconf_read_until`. */
  method ReadUntil(channel: Reader, tag: seq<byte>, buf: array<byte>) returns (len: int)
    modifies channel, buf
    ensures var (found, got) := Receive(old(channel.stream), tag, buf.Length, 0, old(channel.script));
            && channel.stream == old(channel.stream)[got..]
            && len == (if found.Some? then found.value else -1)
    ensures len >= 0 ==>
              len <= |old(channel.stream)| && CString(buf[..], NUL) == old(channel.stream)[..len]
  {
    ghost var stream := channel.stream;
    forall i | 0 <= i < buf.Length {
      buf[i] := 0;
    }
    NothingInNothing(stream, tag);
    ResultIsSearch(stream, tag, buf.Length, 0, channel.script);
    var special, rd := ReadToMark(channel, tag, buf);
    if special.None? {
      return -1;
    }
    len := DropMark(buf, tag, special.value, stream[..rd]);
    assert stream[..len] == stream[..rd][..len];
  }

  /** The mark is cut off, so that the buffer holds the message and nothing else as a C string. */
  method DropMark(buf: array<byte>, tag: seq<byte>, at: nat, ghost received: seq<byte>) returns (len: nat)
    requires |received| <= buf.Length && buf[..|received|] == received && Search(received, tag) == Some(at)
    modifies buf
    ensures len == at < |received| && CString(buf[..], NUL) == received[..at]
  {
    FoundText(received, tag);
    len := at;
    buf[len] := 0;
    assert buf[..][..len] == received[..len];
    CStringIs(buf[..], NUL, len);
  }

  /** The mark lies in what has been received, and there is no NUL before it. */
  lemma FoundText(received: seq<byte>, tag: seq<byte>)
    requires Search(received, tag).Some?
    ensures Search(received, tag).value < |received|
    ensures NUL !in received[..Search(received, tag).value]
  {
    var q := Search(received, tag).value;
    SearchMeans(received, tag, q);
    var p: nat :| MessageEnd(received, tag, p, q);
    assert received[..q] <= received[..q + |MARK|];
  }

  /** The buffer holds the first `rd` bytes of the stream, followed by zeros. */
  ghost predicate Filled(buf: array<byte>, rd: nat, stream: seq<byte>)
    reads buf
  {
    && rd <= buf.Length && rd <= |stream| && buf[..rd] == stream[..rd]
    && forall i :: rd <= i < buf.Length ==> buf[i] == 0
  }

  method ReadMore(channel: Reader, buf: array<byte>, rd: nat, ghost stream: seq<byte>)
    returns (n: Reply)
    requires Filled(buf, rd, stream) && channel.stream == stream[rd..]
    modifies channel, buf
    ensures rd + CountOf(n) <= buf.Length && Filled(buf, rd + CountOf(n), stream)
    ensures channel.stream == stream[rd + CountOf(n)..]
    ensures n == Error || |channel.script| < |old(channel.script)|
    ensures n == Answer(old(channel.script), Min(buf.Length - rd, |stream| - rd))
    ensures channel.script == Rest(old(channel.script))
  {
    n := channel.Read(buf, rd, buf.Length - rd);
    Join(stream, 0, rd, rd + CountOf(n));
    Join(stream, rd, rd + CountOf(n), |stream|);
  }

}
