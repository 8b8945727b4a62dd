/** The logger's own code: each section under the lock, and the writing outside it, is one step of
    the machine in AsyncLogger. */
module LoggerCode {
  import opened AsyncLogger

  function LevelToString(level: Level): string {
    match level
    case INFO => "INFO"
    case WARN => "WARN"
    case ERROR => "ERROR"
  }

  function LineOf(r: Record): string {
    "[" + r.timestamp + "] [" + LevelToString(r.level) + "] "
    + (if r.requestId != "" then "[req_" + r.requestId + "] " else "")
    + r.message + "\n"
  }

  /** The line of a record, with and without a request id. */
  lemma LineForms(r: Record)
    ensures r.level.INFO? && r.requestId == "" ==> LineOf(r) == "[" + r.timestamp + "] [INFO] " + r.message + "\n"
    ensures r.level.WARN? && r.requestId == "" ==> LineOf(r) == "[" + r.timestamp + "] [WARN] " + r.message + "\n"
    ensures r.level.ERROR? && r.requestId == "" ==> LineOf(r) == "[" + r.timestamp + "] [ERROR] " + r.message + "\n"
    ensures r.requestId != "" ==>
              LineOf(r) == "[" + r.timestamp + "] [" + LevelToString(r.level) + "] [req_" + r.requestId + "] "
                           + r.message + "\n"
  {}

  function TextOf(records: seq<Record>): (text: string) {
    if records == [] then "" else TextOf(records[..|records| - 1]) + LineOf(records[|records| - 1])
  }

  lemma TextOfSnoc(a: seq<Record>, r: Record)
    ensures TextOf(a + [r]) == TextOf(a) + LineOf(r)
  {
    assert (a + [r])[..|a|] == a;
  }

  lemma Assoc(a: string, b: string, c: string)
    ensures a + b + c == a + (b + c)
  {}

  lemma {:induction false} TextOfConcat(a: seq<Record>, b: seq<Record>)
    ensures TextOf(a + b) == TextOf(a) + TextOf(b)
    decreases |b|
  {
    if b == [] {
      assert a + b == a;
    } else {
      var init, last := b[..|b| - 1], b[|b| - 1];
      assert a + b == a + init + [last];
      TextOfSnoc(a + init, last);
      TextOfConcat(a, init);
      Assoc(TextOf(a), TextOf(init), LineOf(last));
    }
  }

  class Logger {
    const buffers: array<seq<Record>>
    var activeIndex: nat
    var stopping: bool
    var flushRequested: bool
    /** What has been printed. */
    var output: string

    ghost var writer: Writer
    ghost var destructor: Destructor
    ghost var flushers: set<Caller>
    ghost var accepted: seq<Record>
    ghost var written: seq<Record>

    ghost function View(): State
      reads this, buffers
    {
      State(buffers[..], activeIndex, flushRequested, stopping, writer, destructor, flushers, accepted, written)
    }

    ghost predicate Valid()
      reads this, buffers
    {
      Inv(View()) && output == TextOf(written)
    }

    constructor ()
      ensures Valid() && View() == START && fresh(buffers)
    {
      buffers := new seq<Record>[2](_ => []);
      activeIndex, stopping, flushRequested, output := 0, false, false, "";
      writer, destructor, flushers, accepted, written := Waiting, Alive, {}, [], [];
    }

    method Log(record: Record)
      requires Valid() && Enabled(View(), Event.Log(record))
      modifies this`accepted, buffers
      ensures Valid() && View() == Apply(old(View()), Event.Log(record))
    {
      StepKeepsInv(View(), Event.Log(record));
      buffers[activeIndex] := buffers[activeIndex] + [record];
      accepted := accepted + [record];
    }

    /** The first half of `flush`, up to the wait. */
    method RequestFlush(ghost caller: Caller)
      requires Valid() && Enabled(View(), FlushCall(caller))
      modifies this`flushRequested, this`flushers
      ensures Valid() && View() == Apply(old(View()), FlushCall(caller))
    {
      StepKeepsInv(View(), FlushCall(caller));
      flushRequested := true;
      flushers := flushers + {caller};
    }

    method SwapBuffers() returns (toWrite: seq<Record>, stopNow: bool)
      requires Valid() && Enabled(View(), Swap)
      modifies this`activeIndex, this`writer, buffers
      ensures Valid() && View() == Apply(old(View()), Swap)
      ensures writer == Writing(toWrite, stopNow)
    {
      StepKeepsInv(View(), Swap);
      var drained := activeIndex;
      activeIndex := 1 - activeIndex;
      toWrite, buffers[drained] := buffers[drained], [];
      stopNow := stopping;
      writer := Writing(toWrite, stopNow);
    }

    method WriteRecords(records: seq<Record>)
      modifies this`output
      ensures output == old(output) + TextOf(records)
    {
      if records == [] {
        return;
      }
      var batch, i := "", 0;
      while i < |records|
        invariant 0 <= i <= |records| && batch == TextOf(records[..i])
      {
        assert records[..i + 1][..i] == records[..i];
        batch := batch + LineOf(records[i]);
        i := i + 1;
      }
      assert records[..i] == records;
      output := output + batch;
    }

    method WriteOut(toWrite: seq<Record>)
      requires Valid() && writer.Writing? && writer.batch == toWrite
      modifies this`output, this`written, this`writer
      ensures Valid() && View() == Apply(old(View()), WriteBatch)
    {
      StepKeepsInv(View(), WriteBatch);
      TextOfConcat(written, toWrite);
      if toWrite != [] {
        WriteRecords(toWrite);
      }
      assert written + toWrite == old(written) + toWrite;
      written, writer := written + toWrite, Written(writer.stop);
    }

    method AnswerFlush()
      requires Valid() && Enabled(View(), CheckFlush)
      modifies this`flushRequested, this`writer
      ensures Valid() && View() == Apply(old(View()), CheckFlush)
    {
      StepKeepsInv(View(), CheckFlush);
      if flushRequested && buffers[0] == [] && buffers[1] == [] {
        flushRequested := false;
      }
      writer := if writer.stop then Exited else Waiting;
    }

    /** One round of the background loop when nobody else takes the lock meanwhile. */
    method Round() returns (stopNow: bool)
      requires Valid() && writer.Waiting?
      modifies this`activeIndex, this`writer, this`output, this`written, this`flushRequested, buffers
      ensures Valid() && View() == WriterSteps(old(View()), 3)
      ensures stopNow <==> writer.Exited?
    {
      var toWrite;
      toWrite, stopNow := SwapBuffers();
      RoundBegins(old(View()));
      WriteAndAnswer(toWrite);
    }

    /** The part of a round behind the swap. */
    method WriteAndAnswer(toWrite: seq<Record>)
      requires Valid() && writer.Writing? && writer.batch == toWrite
      modifies this`output, this`written, this`writer, this`flushRequested
      ensures Valid() && View() == WriterSteps(old(View()), 2)
      ensures writer == if old(writer.stop) then Exited else Waiting
    {
      RoundEnds(View());
      WriteOut(toWrite);
      AnswerFlush();
    }

    method RequestStop()
      requires Valid() && Enabled(View(), Stop)
      modifies this`stopping, this`destructor
      ensures Valid() && View() == Apply(old(View()), Stop)
    {
      StepKeepsInv(View(), Stop);
      stopping, destructor := true, Joining;
    }

    method TakeRemaining() returns (remaining0: seq<Record>, remaining1: seq<Record>)
      requires Valid() && Enabled(View(), JoinAndTake)
      modifies this`destructor, buffers
      ensures Valid() && View() == Apply(old(View()), JoinAndTake)
      ensures destructor == Remaining(remaining0, remaining1)
    {
      StepKeepsInv(View(), JoinAndTake);
      remaining0, remaining1 := buffers[0], buffers[1];
      buffers[0] := [];
      buffers[1] := [];
      destructor := Remaining(remaining0, remaining1);
    }

    method WriteFirstRemaining(remaining0: seq<Record>)
      requires Valid() && destructor.Remaining? && destructor.first == remaining0
      modifies this`destructor, this`output, this`written
      ensures Valid() && View() == Apply(old(View()), WriteFirst)
    {
      StepKeepsInv(View(), WriteFirst);
      TextOfConcat(written, remaining0);
      WriteRecords(remaining0);
      written, destructor := written + remaining0, Second(destructor.second);
    }

    method WriteSecondRemaining(remaining1: seq<Record>)
      requires Valid() && destructor == Second(remaining1)
      modifies this`destructor, this`output, this`written
      ensures Valid() && View() == Apply(old(View()), WriteSecond)
    {
      StepKeepsInv(View(), WriteSecond);
      TextOfConcat(written, remaining1);
      WriteRecords(remaining1);
      written, destructor := written + remaining1, Destroyed;
    }

    /** What the destructor does once the writer has been joined. */
    method WriteRemaining()
      requires Valid() && Enabled(View(), JoinAndTake)
      modifies this`destructor, this`output, this`written, buffers
      ensures Valid() && View() == Apply(Apply(Apply(old(View()), JoinAndTake), WriteFirst), WriteSecond)
      ensures output == TextOf(accepted)
    {
      var remaining0, remaining1 := TakeRemaining();
      WriteBoth(remaining0, remaining1);
      DestroyedHasWritten(View());
    }

    method WriteBoth(remaining0: seq<Record>, remaining1: seq<Record>)
      requires Valid() && destructor == Remaining(remaining0, remaining1)
      modifies this`destructor, this`output, this`written
      ensures Valid() && View() == Apply(Apply(old(View()), WriteFirst), WriteSecond)
    {
      WriteFirstRemaining(remaining0);
      WriteSecondRemaining(remaining1);
    }
  }
}
