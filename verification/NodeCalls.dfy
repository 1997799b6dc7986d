/** Calls to a full node from the bytes of its replies up to what a lookup concludes. */
module NodeCalls {
  import opened AsciiText
  import opened ChainResponses
  import opened ConsumeLookup
  import opened Framing
  import O = Ownership
  import opened Passes
  import opened ProtoWire
  import opened ReplyStatus
  import opened WhiteSpace
  import opened Words
  import Scalars

  /** What one HTTP exchange brings back. */
  datatype Exchange = Reply(header: Option<Bytes>, body: Bytes) | Unreachable

  /** Only status 5, NOT_FOUND, is told apart from the other failures. */
  function CallOf(x: Exchange): Call {
    match x
    case Unreachable => Failed
    case Reply(header, body) =>
      match Unframed(header, body)
      case Success(msg) => Answered(msg)
      case Failure(Status(code)) => if code == 5 then NotFound else Failed
      case Failure(_) => Failed
  }

  /** A reply of headers only, with the text of a status in them. */
  datatype HeaderReply = HeaderReply(before: seq<Bytes>, text: Bytes, after: seq<Bytes>) {
    ghost predicate Says(n: int) {
      && AreSpaces(before) && AreSpaces(after)
      && WritesSigned(text, n) && -0x8000_0000_0000_0000 <= n <= 0x7FFF_FFFF_FFFF_FFFF
    }

    function Sent(): Exchange {
      Reply(Some(Scalars.Concat(before) + text + Scalars.Concat(after)), [])
    }
  }

  /** A reply of framed messages and a trailer whose last status line is `last`. */
  datatype FramedReply = FramedReply(
    header: Option<Bytes>, messages: seq<Bytes>, trailer: Frame, above: seq<Bytes>, last: StatusLine, below: seq<Bytes>)
  {
    ghost predicate Says(n: int) {
      && EndsWith(trailer, above, last, below) && last.Writes(n)
      && |Concat(messages)| <= 4_194_304 && forall i | 0 <= i < |messages| :: |messages[i]| <= U32_MAX
    }

    predicate CanBeSent() {
      AllFit(MessageFrames(messages) + [trailer])
    }

    function Sent(): Exchange
      requires CanBeSent()
    {
      Reply(header, EncodeFrames(MessageFrames(messages) + [trailer]))
    }
  }

  lemma {:induction false} HeaderReplyReads(h: HeaderReply, n: int)
    requires h.Says(n) && n != 0
    ensures CallOf(h.Sent()) == if n == 5 then NotFound else Failed
  {
    HeaderDecides(h.before, h.text, h.after, n);
  }

  lemma {:induction false} FramedReplyReads(f: FramedReply, n: int)
    requires f.Says(n)
    ensures f.CanBeSent()
    ensures CallOf(f.Sent()) == if n == 0 then Answered(Concat(f.messages)) else if n == 5 then NotFound else Failed
  {
    LastLineDecides(f.header, f.messages, f.trailer, f.above, f.last, f.below, n);
  }

  /** The calls of one lookup, from its exchanges. */
  function CallsOf(exchanges: nat -> Exchange): nat -> Call {
    (i: nat) => CallOf(exchanges(i))
  }

  /** The first `k` exchanges of a lookup bring nothing but these headers, and each says NOT_FOUND. */
  ghost predicate UnknownFor(exchanges: nat -> Exchange, headers: nat -> HeaderReply, k: nat) {
    forall i: nat | i < k :: headers(i).Says(5) && exchanges(i) == headers(i).Sent()
  }

  lemma {:induction false} NotFoundFor(exchanges: nat -> Exchange, headers: nat -> HeaderReply, k: nat)
    requires UnknownFor(exchanges, headers, k)
    ensures forall i: nat | i < k :: CallsOf(exchanges)(i) == NotFound
  {
    forall i: nat | i < k
      ensures CallsOf(exchanges)(i) == NotFound
    {
      HeaderReplyReads(headers(i), 5);
    }
  }

  /** One exchange brings a transaction, framed. */
  ghost predicate BringsReply(x: Exchange, reply: TxReply, f: FramedReply) {
    reply.WellFormed() && f.Says(0) && f.CanBeSent() && Concat(f.messages) == Encode(reply.wire) && x == f.Sent()
  }

  lemma {:induction false} ReplyReads(x: Exchange, reply: TxReply, f: FramedReply)
    requires BringsReply(x, reply, f)
    ensures |Encode(reply.wire)| <= U64_MAX && CallOf(x) == Answered(Encode(reply.wire))
  {
    FramedReplyReads(f, 0);
  }

  /**
   From bytes to verdict: a node that answers NOT_FOUND in its headers up to three times, and then with a framed
   message that writes a transaction, settles the lookup: the pass was consumed exactly when that transaction
   succeeded and one of its events redeems.
   */
  lemma {:induction false} LookupFromBytes(
    exchanges: nat -> Exchange, unknown: nat -> HeaderReply, k: nat, f: FramedReply, reply: TxReply, forms: Forms, q: Query,
    r: Result<bool, LookupError>, calls: nat)
    requires k < 4 && q.now <= U64_MAX && UnknownFor(exchanges, unknown, k) && BringsReply(exchanges(k), reply, f)
    ensures LookupEnds(CallsOf(exchanges), ConsumeFor(forms, q), r, calls) ==>
              calls == k + 1 && r == Success(Redeemed(forms, reply, q))
  {
    NotFoundFor(exchanges, unknown, k);
    ReplyReads(exchanges(k), reply, f);
    ReplyDecides(forms, reply, q);
    if LookupEnds(CallsOf(exchanges), ConsumeFor(forms, q), r, calls) {
      FirstKnownDecides(CallsOf(exchanges), ConsumeFor(forms, q), r, calls, k);
    }
  }

  /** Four such answers in a row are no consume; any other status but 0 is an error, at once. */
  lemma {:induction false} UnknownFromBytes(
    exchanges: nat -> Exchange, headers: nat -> HeaderReply, k: nat, n: int, forms: Forms, q: Query,
    r: Result<bool, LookupError>, calls: nat)
    requires k <= 4 && UnknownFor(exchanges, headers, k)
    requires k < 4 ==> headers(k).Says(n) && n != 0 && n != 5 && exchanges(k) == headers(k).Sent()
    ensures LookupEnds(CallsOf(exchanges), ConsumeFor(forms, q), r, calls) ==>
              if k == 4 then calls == 4 && r == Success(false) else calls == k + 1 && r == Failure(CallFailed)
  {
    NotFoundFor(exchanges, headers, k);
    if k < 4 {
      HeaderReplyReads(headers(k), n);
    }
    if LookupEnds(CallsOf(exchanges), ConsumeFor(forms, q), r, calls) {
      if k < 4 {
        FirstKnownDecides(CallsOf(exchanges), ConsumeFor(forms, q), r, calls, k);
      } else {
        UnknownFourTimes(CallsOf(exchanges), ConsumeFor(forms, q), r, calls);
      }
    }
  }

  // ---- A listing ----

  /** What the exchanges of a listing say, page token by page token. */
  function NodeOf(exchanges: Option<Bytes> -> Exchange): O.Node {
    (token: Option<Bytes>) => var call := CallOf(exchanges(token)); if call.Answered? then Some(call.resp) else None
  }

  /** The exchange brings a page, framed. */
  ghost predicate BringsPage(x: Exchange, p: Page, f: FramedReply) {
    p.WellFormed() && f.Says(0) && f.CanBeSent() && Concat(f.messages) == Encode(p.wire) && x == f.Sent()
  }

  lemma {:induction false} PageReads(x: Exchange, p: Page, f: FramedReply)
    requires BringsPage(x, p, f)
    ensures |Encode(p.wire)| <= U64_MAX && CallOf(x) == Answered(Encode(p.wire))
    ensures NextToken(Encode(p.wire)) == if p.token == Some([]) then None else p.token
  {
    FramedReplyReads(f, 0);
    TokenReads(p);
  }

  /** The token page `i` is asked for with. */
  function Asked(pages: seq<Page>, i: nat): Option<Bytes>
    requires i < |pages|
  {
    if i == 0 then None else pages[i - 1].token
  }

  predicate LeadsOn(p: Page) {
    p.token.Some? && p.token.value != []
  }

  /** Each page comes framed and says which page is next, and the last one says none. */
  ghost predicate ListsPages(exchanges: Option<Bytes> -> Exchange, pages: seq<Page>, replies: seq<FramedReply>) {
    && pages != [] && |replies| == |pages|
    && (forall i | 0 <= i < |pages| :: BringsPage(exchanges(Asked(pages, i)), pages[i], replies[i]))
    && (forall i | 0 <= i < |pages| :: LeadsOn(pages[i]) <==> i < |pages| - 1)
  }

  function Resps(pages: seq<Page>): seq<Bytes> {
    seq(|pages|, i requires 0 <= i < |pages| => Encode(pages[i].wire))
  }

  /** The tokens of all pages but the last. */
  function Tokens(pages: seq<Page>): seq<Bytes>
    requires pages != []
  {
    seq(|pages| - 1, i requires 0 <= i < |pages| - 1 => if pages[i].token.Some? then pages[i].token.value else [])
  }

  lemma {:induction false} PageAnswers(
    exchanges: Option<Bytes> -> Exchange, pages: seq<Page>, replies: seq<FramedReply>, i: nat)
    requires ListsPages(exchanges, pages, replies) && i < |pages|
    ensures |Encode(pages[i].wire)| <= U64_MAX
    ensures NodeOf(exchanges)(Asked(pages, i)) == Some(Resps(pages)[i])
    ensures NextToken(Resps(pages)[i]) == if i < |pages| - 1 then Some(Tokens(pages)[i]) else None
  {
    PageReads(exchanges(Asked(pages, i)), pages[i], replies[i]);
    assert LeadsOn(pages[i]) <==> i < |pages| - 1;
  }

  lemma {:induction false} ServedInOrder(node: O.Node, page: O.Reading, pages: seq<Page>, resps: seq<Bytes>)
    requires pages != [] && |resps| == |pages|
    requires forall i | 0 <= i < |pages| :: LeadsOn(pages[i]) <==> i < |pages| - 1
    requires forall i | 0 <= i < |pages| :: node(Asked(pages, i)) == Some(resps[i])
    requires forall i | 0 <= i < |pages| :: page.next(resps[i]) == if i < |pages| - 1 then Some(Tokens(pages)[i]) else None
    ensures O.Serves(node, page, resps, Tokens(pages))
  {
    assert node(Asked(pages, 0)) == Some(resps[0]);
    forall i | 0 <= i < |pages| - 1
      ensures page.next(resps[i]) == Some(Tokens(pages)[i])
      ensures node(Some(Tokens(pages)[i])) == Some(resps[i + 1])
    {
      assert LeadsOn(pages[i]);
      assert Asked(pages, i + 1) == Some(Tokens(pages)[i]);
    }
  }

  lemma {:induction false} PagesAreServed(
    exchanges: Option<Bytes> -> Exchange, pages: seq<Page>, replies: seq<FramedReply>, forms: Forms, gate: Option<Bytes>)
    requires ListsPages(exchanges, pages, replies)
    ensures O.Serves(NodeOf(exchanges), O.PassesFor(forms, gate), Resps(pages), Tokens(pages))
  {
    forall i | 0 <= i < |pages|
      ensures NodeOf(exchanges)(Asked(pages, i)) == Some(Resps(pages)[i])
      ensures O.PassesFor(forms, gate).next(Resps(pages)[i]) == if i < |pages| - 1 then Some(Tokens(pages)[i]) else None
    {
      PageAnswers(exchanges, pages, replies, i);
    }
    ServedInOrder(NodeOf(exchanges), O.PassesFor(forms, gate), pages, Resps(pages));
  }

  lemma {:induction false} PageLetsIn(
    exchanges: Option<Bytes> -> Exchange, pages: seq<Page>, replies: seq<FramedReply>, forms: Forms, gate: Option<Bytes>, i: nat)
    requires ListsPages(exchanges, pages, replies) && i < |pages|
    ensures O.PassesFor(forms, gate).holds(Resps(pages)[i]) <==> exists o | o in pages[i].objects :: LetsIn(forms, o, gate)
  {
    PageAnswers(exchanges, pages, replies, i);
    assert BringsPage(exchanges(Asked(pages, i)), pages[i], replies[i]);
    PageDecides(forms, pages[i], gate);
  }

  /** Some object on some page lets its owner in. */
  ghost predicate SomeLetsIn(forms: Forms, pages: seq<Page>, gate: Option<Bytes>) {
    exists i, o | 0 <= i < |pages| && o in pages[i].objects :: LetsIn(forms, o, gate)
  }

  lemma {:induction false} PagesLetIn(
    exchanges: Option<Bytes> -> Exchange, pages: seq<Page>, replies: seq<FramedReply>, forms: Forms, gate: Option<Bytes>)
    requires ListsPages(exchanges, pages, replies)
    ensures (exists i | 0 <= i < |pages| :: O.PassesFor(forms, gate).holds(Resps(pages)[i])) <==> SomeLetsIn(forms, pages, gate)
  {
    forall i | 0 <= i < |pages|
      ensures O.PassesFor(forms, gate).holds(Resps(pages)[i]) <==> exists o | o in pages[i].objects :: LetsIn(forms, o, gate)
    {
      PageLetsIn(exchanges, pages, replies, forms, gate, i);
    }
  }

  /**
   From bytes to verdict: the scan of a listing of at most 100 framed pages, each asked for in time, says whether some
   object on some page lets its owner in.
   */
  lemma {:induction false} ScanFromBytes(
    exchanges: Option<Bytes> -> Exchange, pages: seq<Page>, replies: seq<FramedReply>, forms: Forms, gate: Option<Bytes>,
    clock: nat -> nat, timeoutMs: nat, r: Result<bool, O.ScanError>, calls: nat)
    requires ListsPages(exchanges, pages, replies) && |pages| <= 100
    requires forall i | 1 <= i <= |pages| :: clock(i) <= clock(0) + timeoutMs
    ensures O.ScanEnds(NodeOf(exchanges), O.PassesFor(forms, gate), clock, timeoutMs, r, calls) ==>
              r == Success(SomeLetsIn(forms, pages, gate))
  {
    var page := O.PassesFor(forms, gate);
    PagesAreServed(exchanges, pages, replies, forms, gate);
    PagesLetIn(exchanges, pages, replies, forms, gate);
    if O.ScanEnds(NodeOf(exchanges), page, clock, timeoutMs, r, calls) {
      O.ServedIsAnswered(NodeOf(exchanges), page, Resps(pages), Tokens(pages), clock, timeoutMs, r, calls);
    }
  }
}
