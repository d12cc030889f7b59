/** Scheduling background work, and why no writer is left waiting for nobody. */
module Background {
  import opened Entries

  const L0_COMPACTION_TRIGGER := 4
  const L0_SLOWDOWN_WRITES_TRIGGER := 8
  const L0_STOP_WRITES_TRIGGER := 12

  datatype Room = Refused | Delayed | Available | Blocked | SwitchFailed | Switched

  /** The fields of the database that scheduling looks at, and what the environment owes it. Each
      method is one stretch of code that holds the mutex throughout. */
  class Scheduler {
    var scheduled: bool
    var shuttingDown: bool
    var bgError: bool
    var imm: bool
    var level0Files: nat
    /** Some deeper level is over its size limit, or a file has been sought too often. */
    var otherWork: bool
    /** Jobs handed to the environment that have not returned. */
    var jobs: nat
    /** The job has begun and not ended. */
    var running: bool
    /** Writers blocked on `background_work_finished_signal_`. */
    var waiting: set<nat>

    constructor ()
      ensures Valid() && !scheduled && !shuttingDown && !bgError && !imm && level0Files == 0 && waiting == {}
    {
      scheduled, shuttingDown, bgError, imm, level0Files, otherWork := false, false, false, false, 0, false;
      jobs, running, waiting := 0, false, {};
    }

    predicate NeedsCompaction()
      reads this
    {
      level0Files >= L0_COMPACTION_TRIGGER || otherWork
    }

    predicate Pending()
      reads this
    {
      imm || NeedsCompaction()
    }

    /** One job at most, and it is the one the flag stands for. */
    predicate OneJob()
      reads this
    {
      jobs == (if scheduled then 1 else 0) && (running ==> scheduled)
    }

    /** What holds whenever the mutex is free: pending work is scheduled, unless an error or a
        shutdown stopped everything; and whoever waits will be woken by the scheduled job. */
    predicate Valid()
      reads this
    {
      && OneJob()
      && (Pending() ==> scheduled || bgError || shuttingDown)
      && (waiting != {} ==> scheduled || shuttingDown)
    }

    /** Called wherever work may have become pending; establishes the invariant. */
    method MaybeScheduleCompaction()
      requires OneJob()
      modifies this`scheduled, this`jobs
      ensures OneJob() && (Pending() ==> scheduled || bgError || shuttingDown)
      ensures scheduled == (old(scheduled) || (!shuttingDown && !bgError && Pending()))
    {
      if scheduled {
      } else if shuttingDown {
      } else if bgError {
      } else if !imm && !NeedsCompaction() {
      } else {
        scheduled := true;
        jobs := jobs + 1;
      }
    }

    /** One turn of MakeRoomForWrite. `full` says that the memtable has outgrown its buffer, or that
        the caller insists; `created` whether the new log file could be created. */
    method MakeRoom(writer: nat, allowDelay: bool, full: bool, created: bool) returns (room: Room)
      requires Valid()
      modifies this
      ensures Valid()
      ensures room ==
        if old(bgError) then Refused
        else if allowDelay && old(level0Files) >= L0_SLOWDOWN_WRITES_TRIGGER then Delayed
        else if !full then Available
        else if old(imm) || old(level0Files) >= L0_STOP_WRITES_TRIGGER then Blocked
        else if !created then SwitchFailed else Switched
      ensures waiting == old(waiting) + if room == Blocked then {writer} else {}
      ensures imm == (old(imm) || room == Switched)
      ensures unchanged(`shuttingDown) && unchanged(`bgError) && unchanged(`level0Files) && unchanged(`otherWork)
      ensures unchanged(`running) && (old(scheduled) ==> scheduled)
      ensures room == Blocked ==> scheduled || shuttingDown
      ensures room == Switched ==> scheduled || shuttingDown
    {
      if bgError {
        room := Refused;
      } else if allowDelay && level0Files >= L0_SLOWDOWN_WRITES_TRIGGER {
        room := Delayed;
      } else if !full {
        room := Available;
      } else if imm {
        waiting := waiting + {writer};
        room := Blocked;
      } else if level0Files >= L0_STOP_WRITES_TRIGGER {
        waiting := waiting + {writer};
        room := Blocked;
      } else if !created {
        room := SwitchFailed;
      } else {
        imm := true;
        MaybeScheduleCompaction();
        room := Switched;
      }
    }

    /** The end of Get, and read sampling: a file sought too often asks for a compaction. */
    method ChargeSeek(exhausted: bool)
      requires Valid()
      modifies this
      ensures Valid() && otherWork == (old(otherWork) || exhausted)
      ensures unchanged(`imm) && unchanged(`bgError) && unchanged(`shuttingDown) && unchanged(`waiting)
      ensures unchanged(`level0Files)
      ensures unchanged(`running) && (old(scheduled) ==> scheduled)
    {
      if exhausted {
        otherWork := true;
        MaybeScheduleCompaction();
      }
    }

    /** BackgroundCall up to its first release of the mutex: true if there is work to do. */
    method BeginJob() returns (work: bool)
      requires Valid() && scheduled && !running
      modifies this`running
      ensures Valid() && running && work == (!shuttingDown && !bgError)
    {
      running := true;
      work := !shuttingDown && !bgError;
    }

    /** A memtable flush was installed; nested in a compaction it also wakes blocked writers. */
    method InstallFlush(level0Files: nat, otherWork: bool, nested: bool)
      requires Valid() && running && imm
      modifies this
      ensures Valid() && running && !imm && this.level0Files == level0Files && this.otherWork == otherWork
      ensures waiting == if nested then {} else old(waiting)
      ensures unchanged(`bgError) && unchanged(`shuttingDown) && unchanged(`scheduled)
    {
      imm := false;
      this.level0Files, this.otherWork := level0Files, otherWork;
      if nested {
        waiting := {};
      }
    }

    /** A compaction or a trivial move was installed. */
    method InstallCompaction(level0Files: nat, otherWork: bool)
      requires Valid() && running
      modifies this`level0Files, this`otherWork
      ensures Valid() && this.level0Files == level0Files && this.otherWork == otherWork
    {
      this.level0Files, this.otherWork := level0Files, otherWork;
    }

    /** The first error is kept, and wakes everyone who waits. */
    method RecordBackgroundError()
      requires Valid()
      modifies this`bgError, this`waiting
      ensures Valid() && bgError && waiting == if old(bgError) then old(waiting) else {}
    {
      if !bgError {
        bgError := true;
        waiting := {};
      }
    }

    /** The rest of BackgroundCall: clear the flag, look for more work, wake everyone. */
    method EndJob()
      requires Valid() && running
      modifies this
      ensures Valid() && !running && waiting == {}
      ensures scheduled == (Pending() && !bgError && !shuttingDown)
      ensures unchanged(`imm) && unchanged(`bgError) && unchanged(`shuttingDown) && unchanged(`level0Files)
      ensures unchanged(`otherWork)
    {
      running := false;
      scheduled := false;
      jobs := jobs - 1;
      MaybeScheduleCompaction();
      waiting := {};
    }

    /** The destructor's first step; it then waits until nothing is scheduled. */
    method ShutDown() returns (finished: bool)
      requires Valid()
      modifies this`shuttingDown
      ensures Valid() && shuttingDown && (finished ==> jobs == 0)
      ensures finished == !scheduled
    {
      shuttingDown := true;
      finished := !scheduled;
    }
  }
}
