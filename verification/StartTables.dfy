/**
  The critical sections of `requestStart`, its goroutine, `consumePendingError` and
  `ensureDependencyStarted` as methods that update the two tables in place. Each is proved to
  be one step of `PendingStarts`; between two of them any other may run.
*/
module StartTables {
  import opened Common
  import opened PendingStarts

  class Tables {
    var starts: seq<Start>
    var pendingStarts: map<string, nat>
    var flights: seq<Flight>
    var depStarts: map<string, nat>
    ghost var delivered: seq<nat>
    ghost var discarded: seq<nat>

    ghost function Contents(): State
      reads this
    {
      State(starts, pendingStarts, flights, depStarts, delivered, discarded)
    }

    ghost predicate Valid()
      reads this
    {
      PendingOk(Contents()) && ErrorsOk(Contents()) && FlightsOk(Contents())
    }

    constructor ()
      ensures Valid() && Contents() == Initial()
    {
      starts, pendingStarts, flights, depStarts := [], map[], [], map[];
      delivered, discarded := [], [];
      new;
      NothingStarted();
    }

    /** Keeps the invariant in every method: one step of the transition system. */
    twostate lemma {:induction false} StepTaken(a: Action)
      requires old(Valid()) && Contents() == Step(old(Contents()), a).state
      ensures Valid()
    {
      StepKeepsPending(old(Contents()), a);
      StepKeepsErrors(old(Contents()), a);
      StepKeepsFlights(old(Contents()), a);
    }

    method RequestStartEnter(name: string) returns (reply: Reply)
      requires Valid()
      modifies this
      ensures Valid() && Effect(Contents(), reply) == Step(old(Contents()), Enter(name))
    {
      hide PendingOk, ErrorsOk, FlightsOk;
      reply := Proceed;
      if name in pendingStarts {
        var id := pendingStarts[name];
        ClosedEntry(name);
        if starts[id].phase == Closed {
          if starts[id].failed {
            pendingStarts := pendingStarts - {name};
            delivered := delivered + [id];
            reply := Error(id);
          } else {
            pendingStarts := pendingStarts - {name};
          }
        } else {
          reply := Join(id);
        }
      }
      StepTaken(Enter(name));
    }

    lemma ClosedEntry(name: string)
      requires Valid() && name in pendingStarts
      ensures pendingStarts[name] < |starts|
    {
    }

    method RequestStartRegister(name: string) returns (reply: Reply)
      requires Valid()
      modifies this
      ensures Valid() && Effect(Contents(), reply) == Step(old(Contents()), Register(name))
    {
      hide PendingOk, ErrorsOk, FlightsOk;
      var joined := false;
      if name in pendingStarts {
        var existing := pendingStarts[name];
        ClosedEntry(name);
        if starts[existing].phase == Closed {
          if starts[existing].failed {
            discarded := discarded + [existing];
          }
          pendingStarts := pendingStarts - {name};
        } else {
          joined := true;
          reply := Join(existing);
        }
      }
      if !joined {
        reply := New(|starts|);
        pendingStarts := pendingStarts[name := |starts|];
        starts := starts + [Start(name, Running, false)];
      }
      StepTaken(Register(name));
    }

    method ConsumePendingError(name: string) returns (reply: Reply)
      requires Valid()
      modifies this
      ensures Valid() && Effect(Contents(), reply) == Step(old(Contents()), Consume(name))
    {
      hide PendingOk, ErrorsOk, FlightsOk;
      if name !in pendingStarts {
        reply := Proceed;
      } else {
        var ps := pendingStarts[name];
        ClosedEntry(name);
        if starts[ps].phase == Closed {
          pendingStarts := pendingStarts - {name};
          if starts[ps].failed {
            delivered := delivered + [ps];
            reply := Error(ps);
          } else {
            reply := Proceed;
          }
        } else {
          reply := Join(ps);
        }
      }
      StepTaken(Consume(name));
    }

    /** The goroutine after `startWithDependencies`: set `ps.err`, or go on to the cleanup. */
    method StartReturned(id: nat, ok: bool)
      requires Valid() && id < |starts| && starts[id].phase == Running
      modifies this
      ensures Valid() && Contents() == Step(old(Contents()), Returned(id, ok)).state
    {
      hide PendingOk, ErrorsOk, FlightsOk;
      var t := starts[id];
      if ok {
        starts := starts[id := t.(phase := Succeeded)];
      } else {
        starts := starts[id := t.(phase := Failed, failed := true)];
      }
      StepTaken(Returned(id, ok));
    }

    /** Only delete if this is still the current entry. */
    method CleanUpSuccess(id: nat)
      requires Valid() && id < |starts| && starts[id].phase == Succeeded
      modifies this
      ensures Valid() && Contents() == Step(old(Contents()), CleanUp(id)).state
      ensures pendingStarts == old(pendingStarts) - {starts[id].name}
    {
      assert IsEntry(Contents(), id);
      hide PendingOk, ErrorsOk, FlightsOk;
      var name := starts[id].name;
      if name in pendingStarts && pendingStarts[name] == id {
        pendingStarts := pendingStarts - {name};
      }
      starts := starts[id := starts[id].(phase := Cleaned)];
      StepTaken(CleanUp(id));
    }

    method CloseDone(id: nat)
      requires Valid() && id < |starts| && (starts[id].phase == Failed || starts[id].phase == Cleaned)
      modifies this
      ensures Valid() && Contents() == Step(old(Contents()), Action.CloseDone(id)).state
    {
      hide PendingOk, ErrorsOk, FlightsOk;
      starts := starts[id := starts[id].(phase := Closed)];
      StepTaken(Action.CloseDone(id));
    }

    method EnsureDependencyStarted(name: string) returns (reply: Reply)
      requires Valid()
      modifies this
      ensures Valid() && Effect(Contents(), reply) == Step(old(Contents()), Ensure(name))
    {
      hide PendingOk, ErrorsOk, FlightsOk;
      if name in pendingStarts {
        reply := Deferred;
      } else if name in depStarts {
        reply := Wait(depStarts[name]);
      } else {
        reply := New(|flights|);
        depStarts := depStarts[name := |flights|];
        flights := flights + [Flight(name, true)];
      }
      StepTaken(Ensure(name));
    }

    method DependencyStartReturned(id: nat)
      requires Valid() && id < |flights| && flights[id].calling
      modifies this
      ensures Valid() && Contents() == Step(old(Contents()), Landed(id)).state
      ensures depStarts == old(depStarts) - {flights[id].name}
    {
      assert flights[id].name in depStarts && depStarts[flights[id].name] == id;
      hide PendingOk, ErrorsOk, FlightsOk;
      var name := flights[id].name;
      if name in depStarts && depStarts[name] == id {
        depStarts := depStarts - {name};
      }
      flights := flights[id := Flight(name, false)];
      StepTaken(Landed(id));
    }
  }
}
