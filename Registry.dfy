/** The job registry of `read_write_queue.rs`: an ordered list of named
    entries (`CronChannel`), each owning the channel its run loop reads
    control messages from.

    An entry's channel is shared by every clone of the entry, so a message
    sent through a clone lands in the entry's own queue; the model keeps one
    queue per entry, the messages `sent` to it in order. Launching an entry
    spawns a run loop on a clone; the model counts the loops started on each
    entry. */
module Registry {
  import opened Base
  import Cronueue

  datatype CronChannel = CronChannel(
    name: string,
    action: Cronueue.CronueueAction,
    sent: seq<u32>,   // the control messages in the channel, oldest first
    launches: nat)    // run loops started on the channel

  const QueueSuffix: string := "-queue"

  /** `CronChannel::new`: the name gets the suffix and the channel is empty. */
  function NewCronChannel(nameRaw: string, action: Cronueue.CronueueAction): (c: CronChannel)
    ensures |c.name| == |nameRaw| + |QueueSuffix|
    ensures c.name[..|nameRaw|] == nameRaw && c.name[|nameRaw|..] == QueueSuffix
    ensures c.action == action && c.sent == [] && c.launches == 0
  {
    CronChannel(nameRaw + QueueSuffix, action, [], 0)
  }

  /** The stored name is never the raw one, so looking an entry up by the
      name it was added under always misses it. */
  lemma StoredNameIsNotRaw(nameRaw: string, action: Cronueue.CronueueAction)
    ensures NewCronChannel(nameRaw, action).name != nameRaw
  {
    assert |NewCronChannel(nameRaw, action).name| == |nameRaw| + 6;
  }

  /** Distinct raw names give distinct stored names. */
  lemma StoredNamesInjective(a: string, b: string, x: Cronueue.CronueueAction, y: Cronueue.CronueueAction)
    requires NewCronChannel(a, x).name == NewCronChannel(b, y).name
    ensures a == b
  {
    var n := NewCronChannel(a, x).name;
    assert |a| == |b|;
    assert a == n[..|a|] == b;
  }

  /** What can be done to one entry. */
  datatype Signal = SuspendFor(millis: u32) | Terminate | Launch

  /** `suspend` sends its argument, `terminate` sends `0`, `launch` starts a
      run loop on the entry's channel. */
  function Apply(c: CronChannel, s: Signal): (r: CronChannel)
    ensures r.name == c.name && r.action == c.action
    ensures s.Launch? ==> r.sent == c.sent && r.launches == c.launches + 1
    ensures !s.Launch? ==> r.launches == c.launches && |r.sent| == |c.sent| + 1
    ensures !s.Launch? ==> r.sent[..|c.sent|] == c.sent
    ensures s.SuspendFor? ==> r.sent[|c.sent|] == s.millis
    ensures s.Terminate? ==> r.sent[|c.sent|] == 0
  {
    match s
    case SuspendFor(millis) => c.(sent := c.sent + [millis])
    case Terminate => c.(sent := c.sent + [0])
    case Launch => c.(launches := c.launches + 1)
  }

  /** `suspend(0)` puts the very message `terminate` puts. */
  lemma SuspendZeroIsTerminate(c: CronChannel)
    ensures Apply(c, SuspendFor(0)) == Apply(c, Terminate)
  {
  }

  /** The index of the first entry called `name`. */
  function FindName(entries: seq<CronChannel>, name: string): (r: Option<nat>)
    ensures r.Some? ==> r.value < |entries| && entries[r.value].name == name
    ensures r.Some? ==> forall j :: 0 <= j < r.value ==> entries[j].name != name
    ensures r.None? ==> forall j :: 0 <= j < |entries| ==> entries[j].name != name
    decreases |entries|
  {
    if entries == [] then None
    else if entries[0].name == name then Some(0)
    else match FindName(entries[1..], name)
      case None => None
      case Some(k) => Some(k + 1)
  }

  /** The index of the last entry, none in an empty registry. */
  function LastIndex(entries: seq<CronChannel>): (r: Option<nat>)
    ensures r.Some? <==> entries != []
    ensures r.Some? ==> r.value + 1 == |entries|
  {
    if entries == [] then None else Some(|entries| - 1)
  }

  /** The first entry if it is called `name`: all `launch_name` looks at,
      because it iterates over `into_iter().next()`, an `Option`. */
  function FirstEntryIfNamed(entries: seq<CronChannel>, name: string): (r: Option<nat>)
    ensures r.Some? <==> entries != [] && entries[0].name == name
    ensures r.Some? ==> r.value == 0
  {
    if entries != [] && entries[0].name == name then Some(0) else None
  }

  /** The registry after signalling the entry at `at`; nothing when `at` is none. */
  function SignalAt(entries: seq<CronChannel>, at: Option<nat>, s: Signal): seq<CronChannel>
    requires at.Some? ==> at.value < |entries|
  {
    match at
    case None => entries
    case Some(k) => entries[k := Apply(entries[k], s)]
  }

  /** Same length, names and actions, entry by entry. */
  predicate SameShape(a: seq<CronChannel>, b: seq<CronChannel>) {
    |a| == |b| && forall k :: 0 <= k < |a| ==> a[k].name == b[k].name && a[k].action == b[k].action
  }

  /** Signalling never changes the list itself, and leaves every entry but
      the target exactly as it was. */
  lemma SignalKeepsShape(entries: seq<CronChannel>, at: Option<nat>, s: Signal)
    requires at.Some? ==> at.value < |entries|
    ensures var r := SignalAt(entries, at, s);
      && SameShape(entries, r)
      && forall k :: 0 <= k < |entries| && at != Some(k) ==> r[k] == entries[k]
  {
  }

  /** A signal by name reaches the first entry with that name and no other;
      when no entry has the name nothing changes. */
  lemma {:induction false} ByNameReachesFirstMatch(entries: seq<CronChannel>, name: string, s: Signal)
    ensures var r := SignalAt(entries, FindName(entries, name), s);
      && SameShape(entries, r)
      && forall k :: 0 <= k < |entries| ==>
           r[k] == (if entries[k].name == name && (forall j :: 0 <= j < k ==> entries[j].name != name)
                    then Apply(entries[k], s) else entries[k])
  {
    var at := FindName(entries, name);
    var r := SignalAt(entries, at, s);
    forall k | 0 <= k < |entries|
      ensures r[k] == (if entries[k].name == name && (forall j :: 0 <= j < k ==> entries[j].name != name)
                       then Apply(entries[k], s) else entries[k])
    {
      if at == Some(k) {
      } else if entries[k].name == name {
        assert at.Some? && at.value < k;
        assert entries[at.value].name == name;
      }
    }
  }

  /** Names are not checked for duplicates: adding two actions under one raw
      name stores two entries with the same name, and the later one can never
      be reached by name. */
  lemma DuplicateNameShadowed(entries: seq<CronChannel>, nameRaw: string,
                              a: Cronueue.CronueueAction, b: Cronueue.CronueueAction)
    ensures var r := entries + [NewCronChannel(nameRaw, a)] + [NewCronChannel(nameRaw, b)];
      && r[|entries|].name == r[|entries| + 1].name
      && FindName(r, nameRaw + QueueSuffix).Some?
      && FindName(r, nameRaw + QueueSuffix).value <= |entries|
  {
    var r := entries + [NewCronChannel(nameRaw, a)] + [NewCronChannel(nameRaw, b)];
    assert r[|entries|].name == nameRaw + QueueSuffix;
  }

  /** `launch_name` as written: an entry other than the first is never
      launched, whatever its name. */
  lemma LaunchNameSeesOnlyFirst(entries: seq<CronChannel>, name: string)
    requires entries == [] || entries[0].name != name
    ensures SignalAt(entries, FirstEntryIfNamed(entries, name), Launch) == entries
  {
  }

  /** Two entries, the second called `b-queue`: `launch_name("b-queue")` as
      written starts nothing, while a lookup of the first match launches it. */
  lemma LaunchNameMissesSecondEntry(x: Cronueue.CronueueAction)
    ensures var entries := [NewCronChannel("a", x), NewCronChannel("b", x)];
      && SignalAt(entries, FirstEntryIfNamed(entries, "b-queue"), Launch) == entries
      && SignalAt(entries, FindName(entries, "b-queue"), Launch)[1].launches == 1
  {
    var entries := [NewCronChannel("a", x), NewCronChannel("b", x)];
    assert entries[0].name == "a-queue" != "b-queue";
    assert entries[1].name == "b-queue";
    assert FindName(entries, "b-queue") == Some(1);
  }

  /** The registry, `ReadWriteQueue(RefCell<Vec<CronChannel>>)`. */
  class ReadWriteQueue {
    var entries: seq<CronChannel>

    /** `ReadWriteQueue::new`: no entries. */
    constructor ()
      ensures entries == []
    {
      entries := [];
    }

    /** `add_new_action`: appends one new entry, with no check of its name
        against the others. */
    method AddNewAction(name: string, action: Cronueue.CronueueAction)
      modifies this
      ensures entries == old(entries) + [NewCronChannel(name, action)]
    {
      var chanCron := NewCronChannel(name, action);
      entries := entries + [chanCron];
    }

    /** The `for ... if w.name == name { ...; break }` search of the
        `*_name` operations. */
    method FirstNamed(name: string) returns (at: Option<nat>)
      ensures at == FindName(entries, name)
    {
      var k := 0;
      at := None;
      while k < |entries|
        invariant 0 <= k <= |entries|
        invariant forall j :: 0 <= j < k ==> entries[j].name != name
      {
        if entries[k].name == name {
          at := Some(k);
          break;
        }
        k := k + 1;
      }
    }

    /** `launch_lastest`. */
    method LaunchLatest()
      modifies this
      ensures entries == SignalAt(old(entries), LastIndex(old(entries)), Launch)
    {
      if |entries| > 0 {
        var k := |entries| - 1;
        entries := entries[k := Apply(entries[k], Launch)];
      }
    }

    /** `launch_name`, as written: only the first entry is inspected. */
    method LaunchName(name: string)
      modifies this
      ensures entries == SignalAt(old(entries), FirstEntryIfNamed(old(entries), name), Launch)
    {
      if |entries| > 0 {
        var w := entries[0];
        if w.name == name {
          entries := entries[0 := Apply(w, Launch)];
        }
      }
    }

    /** `launch_name` searching the whole registry, as `suspend_name` and
        `terminate_name` do. */
    method LaunchNameIntended(name: string)
      modifies this
      ensures entries == SignalAt(old(entries), FindName(old(entries), name), Launch)
    {
      var at := FirstNamed(name);
      if at.Some? {
        entries := entries[at.value := Apply(entries[at.value], Launch)];
      }
    }

    /** `suspend_latest`. */
    method SuspendLatest(millis: u32)
      modifies this
      ensures entries == SignalAt(old(entries), LastIndex(old(entries)), SuspendFor(millis))
    {
      if |entries| > 0 {
        var k := |entries| - 1;
        entries := entries[k := Apply(entries[k], SuspendFor(millis))];
      }
    }

    /** `suspend_name`: the first entry with that name, if any. */
    method SuspendName(name: string, millis: u32)
      modifies this
      ensures entries == SignalAt(old(entries), FindName(old(entries), name), SuspendFor(millis))
    {
      var at := FirstNamed(name);
      if at.Some? {
        entries := entries[at.value := Apply(entries[at.value], SuspendFor(millis))];
      }
    }

    /** `terminate_latest`. */
    method TerminateLatest()
      modifies this
      ensures entries == SignalAt(old(entries), LastIndex(old(entries)), Terminate)
    {
      if |entries| > 0 {
        var k := |entries| - 1;
        entries := entries[k := Apply(entries[k], Terminate)];
      }
    }

    /** `terminate_name`: the first entry with that name, if any. */
    method TerminateName(name: string)
      modifies this
      ensures entries == SignalAt(old(entries), FindName(old(entries), name), Terminate)
    {
      var at := FirstNamed(name);
      if at.Some? {
        entries := entries[at.value := Apply(entries[at.value], Terminate)];
      }
    }
  }
}
