/**
 * The incremental XML event engine that FoxmlParser::parse feeds chunk by
 * chunk (PHP's xml_parser_* functions), seen only at its boundary.
 *
 * What one xml_parse call does is an oracle: given the chunks fed before,
 * the chunk and the "final" flag, it yields the value xml_parse returns,
 * the code xml_get_error_code reports afterwards, the nodes the element
 * stack machine popped (through FoxmlParser::pop) in the callbacks that
 * call fired, and whether one of those callbacks raised an exception,
 * which then leaves xml_parse before its result is checked. The tokeniser
 * and the stack machine are not part of this model.
 */
module EventEngine {
  import opened Prelude
  import opened ChunkedReader

  /** A node built by the element stack machine; only its identity matters here. */
  datatype Node = Node(id: nat)

  datatype Feedback = Feedback(result: bool, errorCode: int, pops: seq<Node>, raised: bool)

  /** (chunks fed so far, this chunk, final flag) -> what xml_parse does with it. */
  type Oracle = (seq<Chunk>, Chunk, bool) -> Feedback

  /** The engine's state between calls: what it has been fed, and its current error code. */
  datatype Engine = Engine(fed: seq<Chunk>, errorCode: int)

  /** xml_parser_create_ns: a fresh engine. */
  const FreshEngine: Engine := Engine([], 0)

  /**
   * The check after each xml_parse (FoxmlParser.php:77), as written: throw
   * only when the result is truthy and the error code non-zero.
   */
  predicate Throws(fb: Feedback)
  {
    fb.result && fb.errorCode != 0
  }

  /** A chunk stops the loop when a callback raised during xml_parse or the check throws. */
  predicate Stops(fb: Feedback)
  {
    fb.raised || Throws(fb)
  }

  /** The output field after the given pops: the last node popped, or what it was when none was. */
  function LastOf(output: Option<Node>, pops: seq<Node>): Option<Node>
  {
    if pops == [] then output else Some(pops[|pops| - 1])
  }

  /** Popping one run of nodes and then another leaves the output the whole run would. */
  lemma LastOfCompose(output: Option<Node>, a: seq<Node>, b: seq<Node>)
    ensures LastOf(LastOf(output, a), b) == LastOf(output, a + b)
  {
    if b != [] {
      assert (a + b)[|a + b| - 1] == b[|b| - 1];
    } else {
      assert a + b == a;
    }
  }

  datatype AbortCause = HandlerRaised | CheckFailed

  datatype Outcome = Completed(output: Option<Node>) | Aborted(cause: AbortCause)

  /**
   * The read-and-feed loop over the chunks still to come: each chunk goes
   * to the engine with the final flag set on the last one only; the loop
   * stops at the first chunk on which a callback raised or the check
   * throws, and otherwise completes with the output field as the pops left
   * it.
   */
  function Drive(oracle: Oracle, fed: seq<Chunk>, rest: seq<Chunk>, output: Option<Node>): Outcome
    decreases |rest|
  {
    if rest == [] then
      Completed(output)
    else
      var fb := oracle(fed, rest[0], |rest| == 1);
      if fb.raised then Aborted(HandlerRaised)
      else if Throws(fb) then Aborted(CheckFailed)
      else Drive(oracle, fed + [rest[0]], rest[1..], LastOf(output, fb.pops))
  }

  /** What the engine is told at step k of the loop over rest, having been fed `fed` before. */
  function FeedAt(oracle: Oracle, fed: seq<Chunk>, rest: seq<Chunk>, k: nat): Feedback
    requires k < |rest|
  {
    oracle(fed + rest[..k], rest[k], k == |rest| - 1)
  }

  /** Every node popped over the whole loop, in order. */
  function AllPops(oracle: Oracle, fed: seq<Chunk>, rest: seq<Chunk>): seq<Node>
    decreases |rest|
  {
    if rest == [] then []
    else oracle(fed, rest[0], |rest| == 1).pops + AllPops(oracle, fed + [rest[0]], rest[1..])
  }

  /** Stepping past one chunk shifts the view of the later steps by one. */
  lemma FeedAtShift(oracle: Oracle, fed: seq<Chunk>, rest: seq<Chunk>, k: nat)
    requires 0 < k < |rest|
    ensures FeedAt(oracle, fed, rest, k) == FeedAt(oracle, fed + [rest[0]], rest[1..], k - 1)
  {
    assert fed + rest[..k] == (fed + [rest[0]]) + rest[1..][..k - 1];
  }

  /** The loop aborts exactly when some chunk's callbacks raise or its feedback meets the check. */
  lemma {:induction false} DriveAbortsIff(oracle: Oracle, fed: seq<Chunk>, rest: seq<Chunk>, output: Option<Node>)
    ensures Drive(oracle, fed, rest, output).Aborted?
      <==> exists k :: 0 <= k < |rest| && Stops(FeedAt(oracle, fed, rest, k))
    decreases |rest|
  {
    if rest != [] {
      var fb := oracle(fed, rest[0], |rest| == 1);
      assert FeedAt(oracle, fed, rest, 0) == fb by { assert fed + rest[..0] == fed; }
      if !Stops(fb) {
        var fed', rest' := fed + [rest[0]], rest[1..];
        DriveAbortsIff(oracle, fed', rest', LastOf(output, fb.pops));
        if exists k :: 0 <= k < |rest| && Stops(FeedAt(oracle, fed, rest, k)) {
          var k :| 0 <= k < |rest| && Stops(FeedAt(oracle, fed, rest, k));
          FeedAtShift(oracle, fed, rest, k);
          assert Stops(FeedAt(oracle, fed', rest', k - 1));
        }
        if exists j :: 0 <= j < |rest'| && Stops(FeedAt(oracle, fed', rest', j)) {
          var j :| 0 <= j < |rest'| && Stops(FeedAt(oracle, fed', rest', j));
          FeedAtShift(oracle, fed, rest, j + 1);
          assert Stops(FeedAt(oracle, fed, rest, j + 1));
        }
      }
    }
  }

  /** On completion the output is the last node popped anywhere in the loop, or the initial output if none was. */
  lemma {:induction false} DriveOutputIsLastPop(oracle: Oracle, fed: seq<Chunk>, rest: seq<Chunk>, output: Option<Node>)
    requires Drive(oracle, fed, rest, output).Completed?
    ensures Drive(oracle, fed, rest, output).output == LastOf(output, AllPops(oracle, fed, rest))
    decreases |rest|
  {
    if rest != [] {
      var fb := oracle(fed, rest[0], |rest| == 1);
      DriveOutputIsLastPop(oracle, fed + [rest[0]], rest[1..], LastOf(output, fb.pops));
      LastOfCompose(output, fb.pops, AllPops(oracle, fed + [rest[0]], rest[1..]));
    }
  }

  /**
   * A consequence of the check as written: a chunk on which xml_parse
   * reports failure (a false result) never stops the loop, whatever error
   * code the engine reports. If no call returns true and no callback
   * raises, the loop completes.
   */
  lemma FailedResultsNeverAbort(oracle: Oracle, fed: seq<Chunk>, rest: seq<Chunk>, output: Option<Node>)
    requires forall k :: 0 <= k < |rest| ==> !FeedAt(oracle, fed, rest, k).result && !FeedAt(oracle, fed, rest, k).raised
    ensures Drive(oracle, fed, rest, output).Completed?
  {
    DriveAbortsIff(oracle, fed, rest, output);
  }
}
