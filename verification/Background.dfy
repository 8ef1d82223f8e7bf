/** Scheduling of background work and the condition variable everyone waits on (DBImpl).

    Every method below is a stretch of code that runs with the mutex held, from taking it, or being woken, to
    releasing it.  Threads interleave between such stretches only, so what each of them keeps holds whenever
    the mutex is free. */
module Background {
  import opened Basics

  const L0_COMPACTION_TRIGGER: nat := 4
  const L0_SLOWDOWN_TRIGGER: nat := 8
  const L0_STOP_TRIGGER: nat := 12

  datatype Job = Idle | FlushJob | ManualJob(id: nat) | AutoJob

  /** How one turn of MakeRoomForWrite's loop goes on. */
  datatype Turn = BackgroundFailed | Sleeps | HasRoom | Waits | CannotCreate | Switched

  class Scheduler {
    var imm: bool
    var hasImm: bool
    var manual: Option<nat>
    var finished: set<nat>       // manual compactions whose `done` is set
    var level0: nat
    var needs: bool              // versions_->NeedsCompaction()
    var bgError: bool
    var shuttingDown: bool
    var scheduled: bool
    var outstanding: nat         // calls handed to Env::Schedule that have not returned
    var job: Job
    var waiting: set<nat>
    ghost var late: set<nat>     // those who began to wait after the shutdown began
    ghost var takenBack: bool    // the requester of the running manual job has cleared its request

    ghost predicate WorkToDo()
      reads this
    {
      imm || manual.Some? || needs
    }

    /** What holds whenever the mutex is free. */
    ghost predicate Inv()
      reads this
    {
      && hasImm == imm
      && outstanding == (if scheduled then 1 else 0)
      && (!job.Idle? ==> scheduled)
      && (level0 >= L0_COMPACTION_TRIGGER ==> needs)
      && (WorkToDo() && !bgError && !shuttingDown ==> scheduled)
      && late <= waiting && (late != {} ==> shuttingDown)
      && (waiting - late != {} ==> scheduled)
      && (job.FlushJob? ==> imm)
      && (manual.Some? ==> manual.value !in finished)
      && (job.ManualJob? && !takenBack ==> manual == Some(job.id))
      && (takenBack ==> job.ManualJob? && manual.None? && (bgError || shuttingDown))
    }

    constructor ()
      ensures Inv() && fresh(this)
      ensures !imm && manual.None? && !needs && !bgError && !shuttingDown && !scheduled && waiting == {} && finished == {}
      ensures job == Idle
    {
      imm, hasImm, manual, finished, level0, needs := false, false, None, {}, 0, false;
      bgError, shuttingDown, scheduled, outstanding, job := false, false, false, 0, Idle;
      waiting, late, takenBack := {}, {}, false;
    }

    method SignalAll()
      modifies this`waiting, this`late
      ensures waiting == {} && late == {}
    {
      waiting, late := {}, {};
    }

    method RecordBackgroundError()
      modifies this`bgError, this`waiting, this`late
      ensures bgError
      ensures if old(bgError) then waiting == old(waiting) && late == old(late) else waiting == {} && late == {}
    {
      if !bgError {
        bgError := true;
        SignalAll();
      }
    }

    /** At most one call is outstanding: a second one is never scheduled. */
    method MaybeScheduleCompaction()
      requires outstanding == (if scheduled then 1 else 0)
      modifies this`scheduled, this`outstanding
      ensures outstanding == (if scheduled then 1 else 0)
      ensures scheduled <==> old(scheduled) || (WorkToDo() && !bgError && !shuttingDown)
    {
      if scheduled {
      } else if shuttingDown {
      } else if bgError {
      } else if !imm && manual.None? && !needs {
      } else {
        scheduled := true;
        outstanding := outstanding + 1;
      }
    }

    method Wait(thread: nat)
      requires Inv() && (scheduled || shuttingDown) && thread !in waiting
      modifies this`waiting, this`late
      ensures Inv() && waiting == old(waiting) + {thread}
      ensures !shuttingDown ==> thread !in late
    {
      waiting := waiting + {thread};
      if shuttingDown {
        late := late + {thread};
      }
    }

    /** One turn of MakeRoomForWrite.  A writer waits only while a background call is outstanding. */
    method MakeRoomTurn(thread: nat, force: bool, allowDelay: bool, full: bool, canCreate: bool) returns (turn: Turn)
      requires Inv() && thread !in waiting
      modifies this
      ensures Inv()
      ensures turn == if old(bgError) then BackgroundFailed
                      else if allowDelay && old(level0) >= L0_SLOWDOWN_TRIGGER then Sleeps
                      else if !force && !full then HasRoom
                      else if old(imm) || old(level0) >= L0_STOP_TRIGGER then Waits
                      else if !canCreate then CannotCreate
                      else Switched
      ensures turn.Waits? ==> waiting == old(waiting) + {thread} && (shuttingDown || (outstanding == 1 && thread !in late))
      ensures !turn.Waits? ==> waiting == old(waiting)
      ensures imm == (old(imm) || turn.Switched?) && takenBack == old(takenBack)
    {
      if bgError {
        return BackgroundFailed;
      } else if allowDelay && level0 >= L0_SLOWDOWN_TRIGGER {
        return Sleeps;
      } else if !force && !full {
        return HasRoom;
      } else if imm {
        Wait(thread);
        return Waits;
      } else if level0 >= L0_STOP_TRIGGER {
        Wait(thread);
        return Waits;
      } else if !canCreate {
        return CannotCreate;
      } else {
        imm := true;
        hasImm := true;
        MaybeScheduleCompaction();
        return Switched;
      }
    }

    /** TEST_CompactRange for the manual compaction `id`, from taking the mutex or being woken to the next wait or the
        return.  A requester that finds the place free puts its request there; then it waits, for its own or for
        another compaction. */
    method CompactRangeTurn(thread: nat, id: nat) returns (again: bool)
      requires Inv() && thread !in waiting
      modifies this
      ensures Inv()
      ensures again <==> id !in old(finished) && !old(shuttingDown) && !old(bgError)
      ensures again ==> manual == (if old(manual).None? then Some(id) else old(manual))
      ensures again ==> waiting == old(waiting) + {thread} && outstanding == 1 && takenBack == old(takenBack)
      ensures !again ==> manual == (if old(manual) == Some(id) then None else old(manual)) && waiting == old(waiting)
      ensures !again ==> takenBack == (old(takenBack) || (old(manual) == Some(id) && old(job) == ManualJob(id)))
      ensures finished == old(finished) && bgError == old(bgError) && shuttingDown == old(shuttingDown)
      ensures job == old(job) && imm == old(imm)
    {
      if id !in finished && !shuttingDown && !bgError {
        if manual.None? {
          manual := Some(id);
          MaybeScheduleCompaction();
        }
        Wait(thread);
        return true;
      }
      if manual == Some(id) {
        takenBack := takenBack || job == ManualJob(id);
        manual := None;
      }
      return false;
    }

    /** A read charged a seek, or sampled a key, and the version may now want a compaction. */
    method UpdateStats(wants: bool)
      requires Inv()
      modifies this
      ensures Inv() && needs == (old(needs) || wants) && takenBack == old(takenBack)
    {
      needs := needs || wants;
      MaybeScheduleCompaction();
    }

    /** A writer's Sync failed. */
    method SyncError()
      requires Inv()
      modifies this`bgError, this`waiting, this`late
      ensures Inv() && bgError && (!old(bgError) ==> waiting == {})
    {
      RecordBackgroundError();
    }

    /** The destructor begins. */
    method BeginShutdown()
      requires Inv()
      modifies this`shuttingDown
      ensures Inv() && shuttingDown
    {
      shuttingDown := true;
    }

    // ----- The background thread -----

    /** The end of BackgroundCall: everyone waiting is woken, after more work has been scheduled if there is any. */
    method EndCall()
      requires hasImm == imm && scheduled && outstanding == 1
      requires level0 >= L0_COMPACTION_TRIGGER ==> needs
      requires manual.Some? ==> manual.value !in finished
      modifies this`scheduled, this`outstanding, this`job, this`waiting, this`late, this`takenBack
      ensures Inv() && job == Idle && waiting == {}
      ensures scheduled <==> WorkToDo() && !bgError && !shuttingDown
    {
      job, takenBack := Idle, false;
      scheduled := false;
      outstanding := outstanding - 1;
      MaybeScheduleCompaction();
      SignalAll();
    }

    /** The scheduled call begins; flushing comes before manual work, and manual work before the rest. */
    method BackgroundCall()
      requires Inv() && scheduled && job.Idle?
      modifies this
      ensures Inv()
      ensures if old(shuttingDown || bgError) then job == Idle && waiting == {} && !scheduled
              else job == (if old(imm) then FlushJob else if old(manual).Some? then ManualJob(old(manual).value) else AutoJob)
                   && waiting == old(waiting) && late == old(late)
      ensures imm == old(imm) && manual == old(manual) && bgError == old(bgError) && shuttingDown == old(shuttingDown)
      ensures finished == old(finished)
    {
      if shuttingDown {
        EndCall();
      } else if bgError {
        EndCall();
      } else if imm {
        job := FlushJob;
      } else if manual.Some? {
        job := ManualJob(manual.value);
      } else {
        job := AutoJob;
      }
    }

    /** The end of CompactMemTable: the new version is installed, or the error recorded. */
    method EndCompactMemTable(ok: bool, level0': nat, needs': bool)
      requires imm && hasImm && (level0 >= L0_COMPACTION_TRIGGER ==> needs)
      requires level0' >= L0_COMPACTION_TRIGGER ==> needs'
      modifies this`imm, this`hasImm, this`level0, this`needs, this`bgError, this`waiting, this`late
      ensures hasImm == imm && imm == !ok && bgError == (old(bgError) || !ok)
      ensures level0 >= L0_COMPACTION_TRIGGER ==> needs
      ensures (waiting == {} && late == {}) || (waiting == old(waiting) && late == old(late))
      ensures ok ==> level0 == level0' && needs == needs'
    {
      if ok {
        level0, needs := level0', needs';
        imm := false;
        hasImm := false;
      } else {
        RecordBackgroundError();
      }
    }

    /** A flush in the middle of a compaction; waiting writers are woken although the call goes on. */
    method NestedFlush(ok: bool, level0': nat, needs': bool)
      requires Inv() && (job.ManualJob? || job.AutoJob?) && imm
      requires level0' >= L0_COMPACTION_TRIGGER ==> needs'
      modifies this
      ensures Inv() && waiting == {} && job == old(job) && imm == !ok && takenBack == old(takenBack)
    {
      EndCompactMemTable(ok, level0', needs');
      SignalAll();
    }

    method FinishFlush(ok: bool, level0': nat, needs': bool)
      requires Inv() && job.FlushJob?
      requires level0' >= L0_COMPACTION_TRIGGER ==> needs'
      modifies this
      ensures Inv() && waiting == {} && job == Idle && imm == !ok
    {
      EndCompactMemTable(ok, level0', needs');
      EndCall();
    }

    /** The end of any other BackgroundCompaction.  A manual one looks at manual_compaction_ again: `gone` says that
        it finds a null pointer there, which it goes on to dereference.  That is so exactly when the requester has
        taken its request back, which takes an error or a shutdown. */
    method FinishCompaction(ok: bool, level0': nat, needs': bool, done: bool) returns (gone: bool)
      requires Inv() && (job.ManualJob? || job.AutoJob?)
      requires level0' >= L0_COMPACTION_TRIGGER ==> needs'
      modifies this
      ensures Inv() && waiting == {} && job == Idle
      ensures gone <==> old(takenBack)
      ensures gone ==> old(bgError || shuttingDown)
      ensures old(job).ManualJob? && !gone ==>
                manual.None? && finished == if !ok || done then old(finished) + {old(job).id} else old(finished)
    {
      gone := false;
      level0, needs := level0', needs';
      if !ok {
        RecordBackgroundError();
      }
      if job.ManualJob? {
        if manual.None? {
          gone := true;
        } else {
          var m := manual.value;
          if !ok || done {
            finished := finished + {m};
          }
          manual := None;
        }
      }
      EndCall();
    }
  }

  /** No lost wake-up: whoever waits, and began to before any shutdown, has exactly one background call ahead of it,
      and every such call ends by waking everyone (EndCall). */
  lemma WaitersAreWoken(s: Scheduler, thread: nat)
    requires s.Inv() && thread in s.waiting && (!s.shuttingDown || thread !in s.late)
    ensures s.scheduled && s.outstanding == 1
  {
    assert thread !in s.late;
    assert thread in s.waiting - s.late;
  }

  /** A manual compaction can lose its request: a writer's sync error makes the requester leave its loop and clear
      manual_compaction_ while the background thread, which will read it again, is still compacting. */
  method RequesterLeavesTooEarly() returns (gone: bool)
    ensures gone
  {
    var s := new Scheduler();
    var again := s.CompactRangeTurn(1, 7);  // puts its request and waits
    s.BackgroundCall();
    s.SyncError();                          // wakes the requester
    again := s.CompactRangeTurn(1, 7);      // leaves
    gone := s.FinishCompaction(true, 0, false, false);
  }
}
