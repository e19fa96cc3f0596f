// A session's message queue: other requests add messages to a bounded channel while the
// client's long poll drains it (server/internal/models/session.go, with
// server/internal/routes/game/login/readSession.go).
module Messages {
  type Message = string

  const UINT64 := 0x1_0000_0000_0000_0000

  /** Every message added since the session began stands in sent, in order. */
  class SessionData {
    const capacity: nat
    var messageChan: seq<Message>
    ghost var sent: seq<Message>

    constructor (capacity: nat)
      requires capacity > 0
      ensures Valid() && this.capacity == capacity && messageChan == [] && sent == []
    {
      this.capacity, messageChan, sent := capacity, [], [];
    }

    ghost predicate Valid()
      reads this
    {
      0 < capacity && |messageChan| <= capacity
    }

    /** The messages were taken from the front of the channel, or added and taken, since then. */
    ghost predicate Taken(chan0: seq<Message>, sent0: seq<Message>, results: seq<Message>)
      reads this
    {
      && sent0 <= sent
      && results + messageChan == chan0 + sent[|sent0|..]
    }

    /** Any number of requests, each adding a message while there is room. */
    method Others()
      requires Valid()
      modifies this
      ensures Valid()
      ensures exists more :: messageChan == old(messageChan) + more && sent == old(sent) + more
    {
      var waiting: nat := *;
      ghost var more: seq<Message> := [];
      assert messageChan == old(messageChan) + more && sent == old(sent) + more;
      while waiting > 0
        invariant |messageChan| <= capacity
        invariant messageChan == old(messageChan) + more && sent == old(sent) + more
      {
        var message: Message := *;
        if |messageChan| < capacity {
          messageChan, sent, more := messageChan + [message], sent + [message], more + [message];
        }
        waiting := waiting - 1;
      }
    }

    lemma OthersTaken(chan0: seq<Message>, sent0: seq<Message>, results: seq<Message>, chan1: seq<Message>, sent1: seq<Message>)
      requires sent0 <= sent1 && results + chan1 == chan0 + sent1[|sent0|..]
      requires exists more :: messageChan == chan1 + more && sent == sent1 + more
      ensures Taken(chan0, sent0, results)
    {
      var more :| messageChan == chan1 + more && sent == sent1 + more;
      assert results + (chan1 + more) == results + chan1 + more;
      assert sent[|sent0|..] == sent1[|sent0|..] + more;
      assert chan0 + (sent1[|sent0|..] + more) == chan0 + sent1[|sent0|..] + more;
    }

    /**
     * WaitForMessages. patience is how many messages the outer select takes before it takes
     * the timer. The messages come in order, none twice and none lost; the message number
     * moves only when some came but fewer than the channel holds.
     */
    method WaitForMessages(ackNum: nat, patience: nat) returns (ack: nat, results: seq<Message>)
      requires Valid() && ackNum < UINT64
      modifies this
      ensures Valid() && Taken(old(messageChan), old(sent), results)
      ensures ack == if 0 < |results| < capacity then (ackNum + 1) % UINT64 else ackNum
      ensures 0 < |results| < capacity ==> messageChan == []
    {
      ghost var chan0, sent0 := messageChan, sent;
      results := [];
      for attempt := 0 to patience
        invariant Valid() && Taken(chan0, sent0, results)
        invariant results == [] || |results| >= capacity
      {
        Next(chan0, sent0, results);
        var timer: bool := *;
        if messageChan == [] || timer {
          return ackNum, results;
        }
        results := Receive(chan0, sent0, results);
        while |results| < capacity
          invariant Valid() && Taken(chan0, sent0, results) && results != []
          decreases capacity - |results|
        {
          Next(chan0, sent0, results);
          if messageChan == [] {
            ack := ackNum;
            if |results| > 0 {
              ack := (ack + 1) % UINT64;
            }
            return;
          }
          results := Receive(chan0, sent0, results);
        }
      }
      ack := ackNum;
    }

    /** What happens before the next select. */
    method Next(ghost chan0: seq<Message>, ghost sent0: seq<Message>, results: seq<Message>)
      requires Valid() && Taken(chan0, sent0, results)
      modifies this
      ensures Valid() && Taken(chan0, sent0, results)
    {
      ghost var chan1, sent1 := messageChan, sent;
      Others();
      OthersTaken(chan0, sent0, results, chan1, sent1);
    }

    method Receive(ghost chan0: seq<Message>, ghost sent0: seq<Message>, results: seq<Message>) returns (more: seq<Message>)
      requires Valid() && messageChan != [] && Taken(chan0, sent0, results)
      modifies this
      ensures Valid() && Taken(chan0, sent0, more) && more == results + [old(messageChan)[0]]
    {
      assert results + [messageChan[0]] + messageChan[1..] == results + messageChan;
      more := results + [messageChan[0]];
      messageChan := messageChan[1..];
    }

    /** What one more poll takes is taken behind what was taken before. */
    lemma TakenMore(chan0: seq<Message>, sent0: seq<Message>, delivered: seq<Message>, chan1: seq<Message>, sent1: seq<Message>,
                    results: seq<Message>)
      requires sent0 <= sent1 && delivered + chan1 == chan0 + sent1[|sent0|..] && Taken(chan1, sent1, results)
      ensures Taken(chan0, sent0, delivered + results)
    {
      var more := sent[|sent1|..];
      assert sent == sent1 + more;
      assert sent[|sent0|..] == sent1[|sent0|..] + more;
      JoinedThree(delivered, results, messageChan);
      JoinedThree(delivered, chan1, more);
      JoinedThree(chan0, sent1[|sent0|..], more);
    }

    static lemma JoinedThree(a: seq<Message>, b: seq<Message>, c: seq<Message>)
      ensures a + b + c == a + (b + c)
    {
    }

    /** A client that polls again and again; what all its polls return is what was sent, in order. */
    method ReadSession(acks: seq<nat>, patiences: seq<nat>) returns (delivered: seq<Message>)
      requires Valid() && |acks| == |patiences|
      requires forall i :: 0 <= i < |acks| ==> acks[i] < UINT64
      modifies this
      ensures Valid() && Taken(old(messageChan), old(sent), delivered)
    {
      ghost var chan0, sent0 := messageChan, sent;
      delivered := [];
      for i := 0 to |patiences|
        invariant Valid() && Taken(chan0, sent0, delivered)
      {
        ghost var chan1, sent1 := messageChan, sent;
        var _, results := WaitForMessages(acks[i], patiences[i]);
        TakenMore(chan0, sent0, delivered, chan1, sent1, results);
        delivered := delivered + results;
      }
    }
  }
}
