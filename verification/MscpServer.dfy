/** The MSCP server (mscp_server.cpp): the locked regions of Poll, Reset and
    InitPolling and the execution of one command, on its own fields.  Between two
    regions another thread may run, so each region is a method of its own. */
module MscpServer {
  import opened MscpMessages
  import opened MscpPolling
  import opened Words

  class Server {
    var pollState: PollingState
    var credits: nat
    var messages: seq<Message>
    // where the two threads are, and history
    ghost var poller: Poller
    ghost var resetter: Resetter
    ghost var epochs: seq<nat>
    ghost var epoch: nat
    ghost var pending: bool

    ghost function Threads(): State
      reads this
    {
      State(pollState, poller, resetter, epochs, epoch, pending)
    }

    ghost predicate Valid()
      reads this
    {
      Inv(Threads()) && |epochs| == |messages|
    }

    constructor ()
      ensures Valid() && Threads() == Initial() && credits == INIT_CREDITS
    {
      pollState, credits, messages := Wait, INIT_CREDITS, [];
      poller, resetter, epochs, epoch, pending := Top, Idle, [], 0, false;
    }

    /** The region at the top of Poll: wait, or begin a scan with an empty queue. */
    method BeginPoll() returns (waits: bool)
      requires Valid() && poller == Top
      modifies this
      ensures Valid() && Threads() == Step(old(Threads()), PollerTop)
      ensures waits == (old(pollState) == Wait) && credits == old(credits)
      ensures !waits ==> messages == []
    {
      StepKeepsInv(Threads(), PollerTop);
      waits := pollState == Wait;
      if waits {
        poller := Blocked;
      } else {
        if pollState == InitRun {
          pollState := Run;
        }
        messages := [];
        poller, epochs, pending := Scan, [], false;
      }
    }

    /** The test before a command is fetched. */
    method MayFetch() returns (fetch: bool)
      requires Valid() && poller == Scan
      modifies this`poller
      ensures Valid() && Threads() == Step(old(Threads()), PollerTestScan)
      ensures fetch == (pollState != InitRestart)
    {
      StepKeepsInv(Threads(), PollerTestScan);
      fetch := pollState != InitRestart;
      poller := if fetch then Fetching else Exec;
    }

    /** What GetNextCommand returned: a message, the end of the ring or an error. */
    method Fetched(message: seq<Message>, failed: bool)
      requires Valid() && poller == Fetching && |message| <= 1
      modifies this`poller, this`messages, this`epochs
      ensures Valid()
      ensures Threads()
              == Step(old(Threads()), if failed then FetchError else if message == [] then FetchNone else Fetch)
      ensures messages == if failed then [] else old(messages) + message
    {
      StepKeepsInv(Threads(), if failed then FetchError else if message == [] then FetchNone else Fetch);
      if failed {
        messages := [];
        poller, epochs := Exec, [];
      } else if message == [] {
        poller := Exec;
      } else {
        messages := messages + message;
        poller, epochs := Scan, epochs + [epoch];
      }
    }

    /** The next command of the queue, unless it is empty or a Reset waits. */
    method NextMessage() returns (message: seq<Message>)
      requires Valid() && poller == Exec
      modifies this`poller, this`messages, this`epochs
      ensures Valid() && Threads() == Step(old(Threads()), PollerTestExec)
      ensures message == (if old(messages) != [] && pollState != InitRestart then old(messages)[..1] else [])
      ensures messages == old(messages)[|message|..]
    {
      StepKeepsInv(Threads(), PollerTestExec);
      message := [];
      if messages != [] && pollState != InitRestart {
        message := messages[..1];
        messages := messages[1..];
        poller, epochs := Posting(epochs[0]), epochs[1..];
      } else {
        poller := Bottom;
      }
    }

    /** End code, status and credits of the message in place; `status` is the result
        of the command, `invalid` that of an opcode that is not implemented. */
    method Respond(message: Message, status: nat, invalid: nat) returns (response: Message)
      modifies this`credits
      ensures response
              == MscpMessages.Respond(message, if Implemented(message.code) then status else invalid, old(credits))
      ensures Answers(response, message)
      ensures credits == old(credits) - Granted(message.messageType, old(credits))
    {
      RespondAnswers(message, if Implemented(message.code) then status else invalid, credits);
      hide Answers;
      var protocolError := !Implemented(message.code);
      response := message.(status := if protocolError then invalid else status);
      if protocolError {
        response := response.(code := END);
      } else {
        EndBitJoins(message.code);
        response := response.(code := Or(message.code, END));
      }
      if message.messageType == SEQUENTIAL {
        var granted := if credits < MAX_CREDITS then credits else MAX_CREDITS;
        credits := credits - granted;
        response := response.(credits := granted + 1);
      } else {
        response := response.(credits := 0);
      }
    }

    /** The response is in the ring. */
    method Posted()
      requires Valid() && poller.Posting?
      modifies this`poller
      ensures Valid() && Threads() == Step(old(Threads()), Post)
    {
      StepKeepsInv(Threads(), Post);
      poller := Exec;
    }

    /** The region at the bottom of Poll; a waiting Reset is told. */
    method EndPoll()
      requires Valid() && poller == MscpPolling.Bottom
      modifies this
      ensures Valid() && Threads() == Step(old(Threads()), PollerBottom) && credits == old(credits)
    {
      StepKeepsInv(Threads(), PollerBottom);
      messages := [];
      poller, epochs := Top, [];
      if pollState == InitRestart {
        pollState := Wait;
        CondSignal(true);
      } else if pollState == InitRun {
        pollState := Run;
      } else {
        pollState := Wait;
      }
    }

    /** pthread_cond_signal: one of the waiting threads, if any, goes on. */
    ghost method CondSignal(wakeReset: bool)
      modifies this`poller, this`resetter
      ensures Threads() == Signal(old(Threads()), wakeReset)
    {
      if poller == Blocked && !(wakeReset && resetter == Waiting) {
        poller := Top;
      } else if resetter == Waiting {
        resetter := Testing;
      }
    }

    /** InitPolling.  During a Reset it leaves the state a waiting Reset does not expect. */
    method InitPolling(ghost wakeReset: bool)
      requires Valid()
      modifies this`pollState, this`poller, this`resetter, this`pending
      ensures Threads() == Step(old(Threads()), MscpPolling.InitPolling(wakeReset))
      ensures |epochs| == |messages| && (old(resetter) == Idle ==> Valid())
    {
      if resetter == Idle {
        StepKeepsInv(Threads(), MscpPolling.InitPolling(wakeReset));
      }
      pollState := InitRun;
      pending := true;
      CondSignal(wakeReset);
    }

    /** Reset up to its wait. */
    method BeginReset() returns (waits: bool)
      requires Valid() && resetter == Idle
      modifies this`pollState, this`resetter, this`pending
      ensures Valid() && Threads() == Step(old(Threads()), ResetEnter)
      ensures waits == (old(pollState) != Wait)
    {
      StepKeepsInv(Threads(), ResetEnter);
      waits := pollState != Wait;
      pending := false;
      if waits {
        pollState := InitRestart;
        resetter := Waiting;
      } else {
        resetter := Leaving;
      }
    }

    /** Reset woken in its wait. */
    method TestReset() returns (waits: bool)
      requires Valid() && resetter == Testing
      modifies this`resetter
      ensures Valid() && Threads() == Step(old(Threads()), ResetTest)
      ensures waits == (pollState != Wait)
    {
      StepKeepsInv(Threads(), ResetTest);
      waits := pollState != Wait;
      resetter := if waits then Waiting else Leaving;
    }

    /** The end of Reset: initial credits, and nothing of before left to be posted. */
    method EndReset()
      requires Valid() && resetter == Leaving
      modifies this`credits, this`resetter, this`epoch
      ensures Valid() && Threads() == Step(old(Threads()), ResetReturn)
      ensures credits == INIT_CREDITS && messages == [] && !poller.Posting?
    {
      StepKeepsInv(Threads(), ResetReturn);
      credits := INIT_CREDITS;
      resetter := Idle;
      epoch := epoch + 1;
    }
  }
}
