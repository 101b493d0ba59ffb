/**
 * The wallet ceremony that issues one mutating RPC and records its capture, on a directory
 * whose changes survive a power loss only once the directory has been synchronized.
 */
module RecoveryCeremony {

  // ---- The output directory -----------------------------------------------------------

  datatype Name = Output | Intent | Receipt | Pending

  /** A name is absent, holds a file whose data may be incomplete, or a complete file. */
  datatype Entry = Absent | Torn | Whole(content: string)

  /** What a process sees under a name, and everything a power loss could leave there. */
  datatype Slot = Slot(visible: Entry, onDisk: set<Entry>) {
    ghost predicate Valid() {
      visible in onDisk
    }

    ghost predicate Settled() {
      onDisk == {visible}
    }

    /** The name exists now, and after any power loss. */
    ghost predicate Certain() {
      visible != Absent && Absent !in onDisk
    }
  }

  datatype Directory = Directory(output: Slot, intent: Slot, receipt: Slot, pending: Slot) {
    function At(name: Name): Slot {
      match name
      case Output => output
      case Intent => intent
      case Receipt => receipt
      case Pending => pending
    }

    function With(name: Name, slot: Slot): (d: Directory)
      ensures d.At(name) == slot
      ensures forall other :: other != name ==> d.At(other) == At(other)
    {
      match name
      case Output => this.(output := slot)
      case Intent => this.(intent := slot)
      case Receipt => this.(receipt := slot)
      case Pending => this.(pending := slot)
    }

    /** A change of one name; until the next synchronization either value may survive. */
    function Put(name: Name, entry: Entry): Directory {
      With(name, Slot(entry, At(name).onDisk + {entry}))
    }

    /** Completing a file's data also completes it wherever its entry survives. */
    function SyncData(name: Name, content: string): Directory {
      With(name, Slot(Whole(content), At(name).onDisk - {Torn} + {Whole(content)}))
    }

    function Synced(): Directory {
      Directory(Sure(output.visible), Sure(intent.visible), Sure(receipt.visible), Sure(pending.visible))
    }

    ghost predicate Valid() {
      output.Valid() && intent.Valid() && receipt.Valid() && pending.Valid()
    }
  }

  /** An entry that nothing but another change can alter. */
  function Sure(entry: Entry): Slot {
    Slot(entry, {entry})
  }

  /** What a power loss may leave of one name, and of the directory. */
  ghost predicate SlotAfterLoss(before: Slot, after: Slot) {
    after.visible in before.onDisk && after.Settled()
  }

  ghost predicate AfterLoss(before: Directory, after: Directory) {
    forall name: Name :: SlotAfterLoss(before.At(name), after.At(name))
  }

  /** The four names that make the next ceremony refuse. */
  predicate Refuses(d: Directory) {
    d.output.visible != Absent || d.intent.visible != Absent || d.receipt.visible != Absent || d.pending.visible != Absent
  }

  // ---- What every state keeps ---------------------------------------------------------

  /** Evidence of the mutation that no power loss can take away. */
  ghost predicate Evidenced(d: Directory) {
    d.intent.Certain() || d.output.Certain()
  }

  /** Whatever the output name may hold is complete and has passed validation. */
  ghost predicate OutputSound(d: Directory, valid: string -> bool) {
    forall e :: e in d.output.onDisk ==> e == Absent || (e.Whole? && valid(e.content))
  }

  ghost predicate CrashSafe(d: Directory, mutations: nat, valid: string -> bool) {
    && d.Valid() && OutputSound(d, valid)
    && mutations <= 1 && (mutations == 1 ==> Evidenced(d))
  }

  /** A power loss at any safe moment leaves a safe directory. */
  lemma LossIsSafe(before: Directory, after: Directory, mutations: nat, valid: string -> bool)
    requires CrashSafe(before, mutations, valid) && AfterLoss(before, after)
    ensures CrashSafe(after, mutations, valid)
  {
    forall name: Name ensures SlotAfterLoss(before.At(name), after.At(name)) {
    }
    assert SlotAfterLoss(before.At(Output), after.At(Output)) && SlotAfterLoss(before.At(Intent), after.At(Intent));
    assert SlotAfterLoss(before.At(Receipt), after.At(Receipt)) && SlotAfterLoss(before.At(Pending), after.At(Pending));
  }

  /** Once the RPC was issued, every later ceremony refuses, whatever power losses intervene. */
  lemma {:induction false} MutationIsFinal(history: seq<Directory>, mutations: nat, valid: string -> bool)
    requires history != [] && CrashSafe(history[0], mutations, valid) && mutations == 1
    requires forall i :: 0 <= i < |history| - 1 ==> AfterLoss(history[i], history[i + 1])
    ensures Refuses(history[|history| - 1])
  {
    if |history| == 1 {
    } else {
      LossIsSafe(history[0], history[1], mutations, valid);
      assert forall i :: 0 <= i < |history| - 2 ==> AfterLoss(history[1..][i], history[1..][i + 1]) by {
        assert forall i :: 0 <= i < |history| - 1 ==> history[1..][i] == history[i + 1];
      }
      MutationIsFinal(history[1..], mutations, valid);
    }
  }

  /** Adding a complete entry keeps the directory safe. */
  lemma PutIsSafe(d: Directory, mutations: nat, valid: string -> bool, name: Name, file: Entry)
    requires CrashSafe(d, mutations, valid) && name != Intent && file.Whole? && (name == Output ==> valid(file.content))
    ensures CrashSafe(d.Put(name, file), mutations, valid)
  {
  }

  // ---- The ceremony -------------------------------------------------------------------

  class Host {
    var directory: Directory
    var mutations: nat
    /** Whether any step has failed or lost power so far. */
    ghost var disturbed: bool
    /** Whether a serialized capture passes validation (and, for a recovery, matches the original). */
    const valid: string -> bool

    ghost predicate Safe()
      reads this
    {
      CrashSafe(directory, mutations, valid)
    }

    constructor (valid: string -> bool)
      ensures Safe() && this.valid == valid && mutations == 0 && !Refuses(directory) && !disturbed
    {
      var empty := Sure(Absent);
      this.valid := valid;
      directory, mutations, disturbed := Directory(empty, empty, empty, empty), 0, false;
    }

    /** Between any two steps the process may fail, or the machine may lose power. */
    method Interrupted() returns (stopped: bool)
      requires Safe()
      modifies this`directory, this`disturbed
      ensures Safe() && disturbed == (stopped || old(disturbed))
      ensures if stopped then directory == old(directory) || AfterLoss(old(directory), directory) else directory == old(directory)
    {
      if * {
        return false;
      }
      disturbed := true;
      if * {
        return true;
      }
      PowerLoss();
      return true;
    }

    method PowerLoss()
      requires Safe()
      modifies this`directory
      ensures Safe() && AfterLoss(old(directory), directory)
    {
      var output := Survivor(directory.output);
      var intent := Survivor(directory.intent);
      var receipt := Survivor(directory.receipt);
      var pending := Survivor(directory.pending);
      ghost var before := directory;
      directory := Directory(output, intent, receipt, pending);
      forall name: Name ensures SlotAfterLoss(before.At(name), directory.At(name)) {
      }
      LossIsSafe(before, directory, mutations, valid);
    }

    static method Survivor(before: Slot) returns (after: Slot)
      requires before.Valid()
      ensures SlotAfterLoss(before, after)
    {
      var entry :| entry in before.onDisk;
      after := Sure(entry);
    }

    /** Creates the intent exclusively; it is certain once both its data and the directory are synced. */
    method CreateIntent(content: string) returns (ok: bool)
      requires Safe() && mutations == 0
      modifies this`directory, this`disturbed
      ensures Safe() && (old(disturbed) ==> disturbed)
      ensures !disturbed ==> (ok <==> old(directory.intent.visible) == Absent)
      ensures ok ==> old(directory.intent.visible) == Absent && directory == old(directory).Put(Intent, Torn).SyncData(Intent, content).Synced()
    {
      if directory.intent.visible != Absent {
        return false;
      }
      directory := directory.Put(Intent, Torn);
      var stopped := Interrupted();
      if stopped {
        return false;
      }
      directory := directory.SyncData(Intent, content);
      stopped := Interrupted();
      if stopped {
        return false;
      }
      directory := directory.Synced();
      return true;
    }

    /**
     * Installs a complete file under a name that must be absent or already hold the same
     * content. The entry is certain when the name was absent; an equal file that was
     * already there is accepted without another synchronization.
     */
    method WriteOnce(name: Name, content: string) returns (ok: bool)
      requires Safe() && name != Intent
      requires name == Output ==> valid(content)
      modifies this`directory, this`disturbed
      ensures Safe() && (old(disturbed) ==> disturbed)
      ensures !disturbed ==> (ok <==> old(directory.At(name).visible) in {Absent, Whole(content)})
      ensures ok ==> directory.At(name).visible == Whole(content)
      ensures ok && old(directory.At(name).visible) == Absent ==> directory == old(directory).Put(name, Whole(content)).Synced()
      ensures ok && old(directory.At(name).visible) != Absent ==> directory == old(directory)
    {
      var existing := directory.At(name).visible;
      if existing == Whole(content) {
        return true;
      }
      if existing != Absent {
        return false;
      }
      var file := Torn;
      var stopped := Interrupted();
      if stopped {
        return false;
      }
      file := Whole(content);
      stopped := Interrupted();
      if stopped {
        return false;
      }
      PutIsSafe(directory, mutations, valid, name, file);
      directory := directory.Put(name, file);
      stopped := Interrupted();
      if stopped {
        return false;
      }
      directory := directory.Synced();
      ok := directory.At(name).visible == Whole(content);
    }

    /** Removes a file whose exact content is still in place, and makes the removal certain. */
    method RemoveExact(name: Name, expected: string) returns (ok: bool)
      requires Safe() && name != Output
      requires name == Intent ==> directory.output.Certain()
      modifies this`directory, this`disturbed
      ensures Safe() && (old(disturbed) ==> disturbed)
      ensures !disturbed ==> (ok <==> old(directory.At(name).visible) == Whole(expected))
      ensures ok ==> old(directory.At(name).visible) == Whole(expected) && directory == old(directory).Put(name, Absent).Synced()
    {
      if directory.At(name).visible != Whole(expected) {
        return false;
      }
      directory := directory.Put(name, Absent);
      var stopped := Interrupted();
      if stopped {
        return false;
      }
      directory := directory.Synced();
      return true;
    }

    /**
     * One ceremony, interruptible at every step. The intent, receipt and capture texts
     * are whatever this run and its RPC answers serialize to. Every outcome is safe; a
     * completed run issued the RPC, for the first time ever, and leaves exactly the
     * validated output; an undisturbed run on a clear directory completes exactly when
     * its capture is valid.
     */
    method Capture(intent: string, receipt: string, capture: string) returns (completed: bool)
      requires Safe()
      modifies this
      ensures Safe() && (old(disturbed) ==> disturbed)
      ensures !disturbed ==> (completed <==> !Refuses(old(directory)) && valid(capture))
      ensures mutations == old(mutations) || (mutations == old(mutations) + 1 && !Refuses(old(directory)))
      ensures completed ==>
                && mutations == 1 && old(mutations) == 0 && valid(capture)
                && directory == Directory(Sure(Whole(capture)), Sure(Absent), Sure(Absent), Sure(Absent))
    {
      if Refuses(directory) {
        return false;
      }
      var stopped := Interrupted();
      if stopped {
        return false;
      }
      assert mutations == 0;
      var ok := CreateIntent(intent);
      if !ok {
        return false;
      }
      stopped := Interrupted();
      if stopped {
        return false;
      }
      mutations := mutations + 1;
      stopped := Interrupted();
      if stopped {
        return false;
      }
      completed := Record(intent, receipt, capture);
    }

    /** From the RPC answer to the cleared intent. */
    method Record(intent: string, receipt: string, capture: string) returns (completed: bool)
      requires Safe() && mutations == 1
      requires directory.output.visible == Absent && directory.receipt.visible == Absent && directory.pending.visible == Absent
      requires directory.intent == Sure(Whole(intent))
      modifies this`directory, this`disturbed
      ensures Safe() && (old(disturbed) ==> disturbed)
      ensures !disturbed ==> (completed <==> valid(capture))
      ensures completed ==>
                && valid(capture)
                && directory == Directory(Sure(Whole(capture)), Sure(Absent), Sure(Absent), Sure(Absent))
    {
      var ok := WriteOnce(Receipt, receipt);
      if !ok {
        return false;
      }
      var stopped := Interrupted();
      if stopped {
        return false;
      }
      ok := WriteOnce(Pending, capture);
      if !ok || !valid(capture) {
        return false;
      }
      stopped := Interrupted();
      if stopped {
        return false;
      }
      ok := WriteOnce(Output, capture);
      if !ok {
        return false;
      }
      completed := CleanUp(intent, receipt, capture);
    }

    /** Removes the intermediate files, the intent last. */
    method CleanUp(intent: string, receipt: string, capture: string) returns (completed: bool)
      requires Safe() && directory.output == Sure(Whole(capture))
      modifies this`directory, this`disturbed
      ensures Safe() && (old(disturbed) ==> disturbed)
      ensures !disturbed ==>
                (completed <==> old(directory.intent.visible) == Whole(intent) && old(directory.receipt.visible) == Whole(receipt)
                                && old(directory.pending.visible) == Whole(capture))
      ensures completed ==>
                directory == Directory(Sure(Whole(capture)), Sure(Absent), Sure(Absent), Sure(Absent))
    {
      var ok := RemoveExact(Pending, capture);
      if !ok {
        return false;
      }
      var stopped := Interrupted();
      if stopped {
        return false;
      }
      ok := RemoveExact(Receipt, receipt);
      if !ok {
        return false;
      }
      stopped := Interrupted();
      if stopped {
        return false;
      }
      ok := RemoveExact(Intent, intent);
      return ok;
    }

    /**
     * Any number of ceremonies on one output path, one after another, with any texts and
     * any interruptions: the wallet is mutated at most once, and whatever stands under the
     * output name, now or after a power loss, is complete and validated.
     */
    method Campaign(runs: seq<(string, string, string)>)
      requires Safe()
      modifies this
      ensures Safe() && mutations <= 1
      ensures forall e :: e in directory.output.onDisk ==> e == Absent || (e.Whole? && valid(e.content))
      ensures old(mutations) == 1 ==> mutations == 1 && Refuses(directory)
    {
      for i := 0 to |runs|
        invariant Safe() && old(mutations) <= mutations
      {
        var stopped := Interrupted();
        if !stopped {
          var _ := Capture(runs[i].0, runs[i].1, runs[i].2);
        }
      }
    }
  }
}
