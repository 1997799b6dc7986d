/** Asking for a transaction the node may not have indexed yet. */
module ConsumeLookup {
  import opened Words
  import opened ChainResponses
  import opened ProtoWire

  /** Attempts while the node does not know the digest. */
  const ATTEMPTS: nat := 4

  /** How one call ends. */
  datatype Call = Answered(resp: Bytes) | NotFound | Failed

  datatype LookupError = CallFailed

  /** The checks on the transaction, for one query. */
  function ConsumeFor(forms: Forms, q: Query): Bytes -> bool {
    resp => ResponseHasConsume(forms, resp, q)
  }

  /** How a lookup ends: the calls made, and what the last one said. */
  ghost predicate LookupEnds(call: nat -> Call, consumes: Bytes -> bool, r: Result<bool, LookupError>, calls: nat) {
    && 1 <= calls <= ATTEMPTS && (forall i: nat | i + 1 < calls :: call(i) == NotFound)
    && match call(calls - 1)
       case Answered(resp) => r == Success(consumes(resp))
       case NotFound => r == Success(false) && calls == ATTEMPTS
       case Failed => r == Failure(CallFailed)
  }

  /** `call(i)` is how attempt `i` ends. Only an unknown digest is asked for again. */
  method ConsumeTxValid(call: nat -> Call, consumes: Bytes -> bool) returns (r: Result<bool, LookupError>, calls: nat)
    ensures LookupEnds(call, consumes, r, calls)
  {
    var attempt := 1;
    while true
      invariant 1 <= attempt <= ATTEMPTS
      invariant forall i: nat | i + 1 < attempt :: call(i) == NotFound
      decreases ATTEMPTS - attempt
    {
      match call(attempt - 1) {
        case Answered(resp) => return Success(consumes(resp)), attempt;
        case Failed => return Failure(CallFailed), attempt;
        case NotFound =>
          if ATTEMPTS <= attempt {
            return Success(false), attempt;
          }
          attempt := attempt + 1;
      }
    }
  }

  /** The first call that is not told "unknown", within the attempts, has an answer that `consumes` accepts. */
  ghost predicate FirstAnswerConsumes(call: nat -> Call, consumes: Bytes -> bool, k: nat) {
    k < ATTEMPTS && (forall i: nat | i < k :: call(i) == NotFound) && call(k).Answered? && consumes(call(k).resp)
  }

  /** A lookup succeeds exactly when the first call the node knows the digest on is answered with a consume. */
  lemma {:induction false} ConsumedExactly(call: nat -> Call, consumes: Bytes -> bool, r: Result<bool, LookupError>, calls: nat)
    requires LookupEnds(call, consumes, r, calls)
    ensures r == Success(true) <==> exists k: nat :: FirstAnswerConsumes(call, consumes, k)
  {
    if r == Success(true) {
      assert FirstAnswerConsumes(call, consumes, calls - 1);
    }
    if k: nat :| FirstAnswerConsumes(call, consumes, k) {
      assert calls <= k + 1;
      assert k < calls;
    }
  }

  /** Up to the fourth, the first attempt not told "unknown" decides: its answer, or its failure. */
  lemma {:induction false} FirstKnownDecides(
    call: nat -> Call, consumes: Bytes -> bool, r: Result<bool, LookupError>, calls: nat, k: nat)
    requires LookupEnds(call, consumes, r, calls) && k < 4 && (forall i: nat | i < k :: call(i) == NotFound)
    ensures call(k).Answered? ==> calls == k + 1 && r == Success(consumes(call(k).resp))
    ensures call(k).Failed? ==> calls == k + 1 && r == Failure(CallFailed)
  {
    if call(k) != NotFound {
      assert !(k + 1 < calls) && !(calls < k + 1);
    }
  }

  /** A digest unknown four times in a row is no consume, and no error. */
  lemma {:induction false} UnknownFourTimes(call: nat -> Call, consumes: Bytes -> bool, r: Result<bool, LookupError>, calls: nat)
    requires LookupEnds(call, consumes, r, calls) && forall i: nat | i < 4 :: call(i) == NotFound
    ensures calls == 4 && r == Success(false)
  {
    assert call(calls - 1) == NotFound;
  }

  /** The same, for answers that are written records. */
  ghost predicate FirstAnswerHasConsume(call: nat -> Call, replies: nat -> TxReply, forms: Forms, q: Query, k: nat) {
    k < ATTEMPTS && (forall i: nat | i < k :: call(i) == NotFound) && call(k).Answered? && HasConsume(forms, replies(k), q)
  }

  /** Every answer is the written form of a record. */
  ghost predicate AnswersAreRecords(call: nat -> Call, replies: nat -> TxReply) {
    forall i: nat | call(i).Answered? ::
      replies(i).WellFormed() && |Encode(replies(i).wire)| <= U64_MAX && call(i).resp == Encode(replies(i).wire)
  }

  lemma {:induction false} AnswerDecides(call: nat -> Call, replies: nat -> TxReply, forms: Forms, q: Query, k: nat)
    ensures AnswersAreRecords(call, replies) ==>
              (FirstAnswerConsumes(call, ConsumeFor(forms, q), k) <==> FirstAnswerHasConsume(call, replies, forms, q, k))
  {
    if AnswersAreRecords(call, replies) && call(k).Answered? {
      ConsumeExactly(forms, replies(k), q);
    }
  }

  /**
   Over written records a lookup says a pass was consumed exactly when, after answers of "unknown" only and within four
   attempts, the node answers with a successful transaction that holds the event.
   */
  lemma {:induction false} LookupDecides(
    call: nat -> Call, replies: nat -> TxReply, forms: Forms, q: Query, r: Result<bool, LookupError>, calls: nat)
    ensures LookupEnds(call, ConsumeFor(forms, q), r, calls) && AnswersAreRecords(call, replies) ==>
              (r == Success(true) <==> exists k: nat :: FirstAnswerHasConsume(call, replies, forms, q, k))
  {
    if LookupEnds(call, ConsumeFor(forms, q), r, calls) && AnswersAreRecords(call, replies) {
      ConsumedExactly(call, ConsumeFor(forms, q), r, calls);
      if k: nat :| FirstAnswerConsumes(call, ConsumeFor(forms, q), k) {
        AnswerDecides(call, replies, forms, q, k);
      }
      if k: nat :| FirstAnswerHasConsume(call, replies, forms, q, k) {
        AnswerDecides(call, replies, forms, q, k);
      }
    }
  }
}
