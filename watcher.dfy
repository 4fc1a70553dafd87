/** The background change watcher: the worker script of app.js:320-368.
    Timers and the message port become explicit calls: `Tick` is one firing
    of the interval, and posted messages are appended to an outbox. */
module Watcher {
  import opened Entries

  /** The `type` of a message the worker posts to the foreground. */
  datatype Message = ChangesDetected | PermissionError

  /** The names `scanDirectory` collects into `newFiles` (app.js:330-334). */
  function ImageNameSet(entries: seq<Entry>): (r: set<string>)
  {
    set e | e in entries && e.kind == File && IsImageName(e.name) :: e.name
  }

  /** The comparison of app.js:336-345, as written: the sizes differ or some
      known name was not scanned. */
  predicate Changed(known: set<string>, found: set<string>) {
    |found| != |known| || exists f :: f in known && f !in found
  }

  /** Two finite sets of one size, one inside the other, are equal. */
  lemma {:induction false} SubsetOfSameSize(a: set<string>, b: set<string>)
    requires a <= b && |a| == |b|
    ensures a == b
  {
    if a != {} {
      var x :| x in a;
      SubsetOfSameSize(a - {x}, b - {x});
    }
  }

  /** The size-plus-missing-name comparison is exactly set inequality, so a
      swap of one name for another is noticed even though the size is unchanged. */
  lemma ChangedIffDiffers(known: set<string>, found: set<string>)
    ensures Changed(known, found) <==> found != known
  {
    if !Changed(known, found) {
      assert known <= found;
      SubsetOfSameSize(known, found);
    }
  }

  /** The collecting loop of `scanDirectory`. */
  method ScanNames(entries: seq<Entry>) returns (newFiles: set<string>)
    ensures newFiles == ImageNameSet(entries)
  {
    newFiles := {};
    var i := 0;
    while i < |entries|
      invariant 0 <= i <= |entries|
      invariant newFiles == ImageNameSet(entries[..i])
    {
      var entry := entries[i];
      assert entries[..i + 1] == entries[..i] + [entry];
      if entry.kind == File && IsImageName(entry.name) {
        newFiles := newFiles + {entry.name};
      }
      i := i + 1;
    }
    assert entries[..i] == entries;
  }

  /** The comparison loop of `scanDirectory`, which stops at the first known
      name that is missing. The order in which the set is walked does not matter. */
  method Diff(knownFiles: set<string>, newFiles: set<string>) returns (hasChanges: bool)
    ensures hasChanges == Changed(knownFiles, newFiles)
    ensures hasChanges <==> newFiles != knownFiles
  {
    hasChanges := false;
    if |newFiles| != |knownFiles| {
      hasChanges := true;
    } else {
      var rest := knownFiles;
      while rest != {}
        invariant rest <= knownFiles
        invariant forall f :: f in knownFiles && f !in rest ==> f in newFiles
        invariant !hasChanges
        decreases rest
      {
        var file :| file in rest;
        if file !in newFiles {
          hasChanges := true;
          break;
        }
        rest := rest - {file};
      }
    }
    ChangedIffDiffers(knownFiles, newFiles);
  }

  /** What one tick does to the watcher: the new `knownFiles`, the messages it
      posts, and whether it clears the interval. */
  datatype TickEffect = TickEffect(knownFiles: set<string>, posted: seq<Message>, clearsInterval: bool)

  /** One run of `scanDirectory` against the last-known names. */
  function TickOf(known: set<string>, scan: ScanResult): (t: TickEffect) {
    match scan
    case ScanFailed => TickEffect(known, [PermissionError], true)
    case Listing(entries) =>
      var found := ImageNameSet(entries);
      if Changed(known, found) then TickEffect(found, [ChangesDetected], false)
      else TickEffect(known, [], false)
  }

  /** A successful tick posts one `changes-detected` exactly when the scanned
      names differ from the known ones, posts nothing otherwise, and in both
      cases leaves the known names equal to the scanned ones. */
  lemma TickOnListing(known: set<string>, entries: seq<Entry>)
    ensures var t := TickOf(known, Listing(entries));
      && (ImageNameSet(entries) != known ==> t.posted == [ChangesDetected])
      && (ImageNameSet(entries) == known ==> t.posted == [])
      && t.knownFiles == ImageNameSet(entries)
      && !t.clearsInterval
  {
    ChangedIffDiffers(known, ImageNameSet(entries));
  }

  /** A second tick on the same listing never fires again. */
  lemma SecondTickIsQuiet(known: set<string>, entries: seq<Entry>)
    ensures var t := TickOf(known, Listing(entries));
      && TickOf(t.knownFiles, Listing(entries)).posted == []
      && TickOf(t.knownFiles, Listing(entries)).knownFiles == t.knownFiles
  {
    TickOnListing(known, entries);
    TickOnListing(TickOf(known, Listing(entries)).knownFiles, entries);
  }

  /** The worker's state. `intervalId` is the last value `setInterval` returned
      (null is `None`); `activeTimers` are the intervals scheduled and not yet
      cleared; `nextTimerId` is the id `setInterval` hands out next. */
  class ChangeWatcher {
    var knownFiles: set<string>
    var intervalId: Option<nat>
    var activeTimers: set<nat>
    var nextTimerId: nat
    var outbox: seq<Message>

    /** Only the interval whose id is recorded can be active, and ids are
        positive (so truthy), distinct and handed out in increasing order. */
    ghost predicate Valid()
      reads this
    {
      && 0 < nextTimerId
      && (intervalId.None? ==> activeTimers == {})
      && (intervalId.Some? ==> activeTimers <= {intervalId.value} && 0 < intervalId.value < nextTimerId)
    }

    /** Some interval is scheduled, so ticks happen. */
    predicate Running()
      reads this
    {
      activeTimers != {}
    }

    /** A freshly created worker: no known names, no interval. */
    constructor ()
      ensures Valid() && !Running()
      ensures knownFiles == {} && intervalId == None && outbox == []
    {
      knownFiles := {};
      intervalId := None;
      activeTimers := {};
      nextTimerId := 1;
      outbox := [];
    }

    /** `clearInterval(id)`. */
    method ClearInterval(id: nat)
      modifies this`activeTimers
      ensures activeTimers == old(activeTimers) - {id}
    {
      activeTimers := activeTimers - {id};
    }

    /** `setInterval(scanDirectory, 3000)`: schedules a new interval and returns its id. */
    method SetInterval() returns (id: nat)
      requires Valid()
      modifies this`activeTimers, this`nextTimerId
      ensures id == old(nextTimerId) && nextTimerId == id + 1
      ensures activeTimers == old(activeTimers) + {id}
    {
      id := nextTimerId;
      nextTimerId := nextTimerId + 1;
      activeTimers := activeTimers + {id};
    }

    /** The `start` message (app.js:359-363): the known names become the given
        ones, and exactly one interval is active afterwards, whatever ran before. */
    method Start(initialFiles: seq<string>)
      requires Valid()
      modifies this
      ensures Valid() && Running()
      ensures knownFiles == NameSet(initialFiles)
      ensures intervalId.Some? && activeTimers == {intervalId.value}
      ensures intervalId.value !in old(activeTimers)
      ensures outbox == old(outbox)
    {
      knownFiles := NameSet(initialFiles);
      if intervalId.Some? {
        ClearInterval(intervalId.value);
      }
      var id := SetInterval();
      intervalId := Some(id);
    }

    /** The `stop` message (app.js:364-367): no interval is active and none is
        recorded. A second `stop` finds this state and leaves it as it is. */
    method Stop()
      requires Valid()
      modifies this`activeTimers, this`intervalId
      ensures Valid() && !Running()
      ensures intervalId == None && activeTimers == {}
    {
      if intervalId.Some? {
        ClearInterval(intervalId.value);
      }
      intervalId := None;
    }

    /** One firing of the interval (app.js:324-356), given what the listing
        yielded. The id of a cleared interval stays recorded in `intervalId`. */
    method Tick(scan: ScanResult)
      requires Valid() && Running()
      modifies this`knownFiles, this`outbox, this`activeTimers
      ensures Valid()
      ensures knownFiles == TickOf(old(knownFiles), scan).knownFiles
      ensures outbox == old(outbox) + TickOf(old(knownFiles), scan).posted
      ensures activeTimers == if TickOf(old(knownFiles), scan).clearsInterval then {} else old(activeTimers)
      ensures scan.ScanFailed? ==>
        knownFiles == old(knownFiles) && outbox == old(outbox) + [PermissionError] && !Running()
      ensures scan.Listing? ==> knownFiles == ImageNameSet(scan.entries) && Running()
      ensures scan.Listing? ==>
        outbox == old(outbox) + (if ImageNameSet(scan.entries) != old(knownFiles) then [ChangesDetected] else [])
    {
      match scan
      case ScanFailed =>
        outbox := outbox + [PermissionError];
        ClearInterval(intervalId.value);
      case Listing(entries) =>
        TickOnListing(knownFiles, entries);
        var newFiles := ScanNames(entries);
        var hasChanges := Diff(knownFiles, newFiles);
        if hasChanges {
          outbox := outbox + [ChangesDetected];
          knownFiles := newFiles;
        }
    }
  }

  /** The worked example of a start with two names and ticks that see a third. */
  method StartThenTwoTicks() returns (w: ChangeWatcher)
    ensures w.outbox == [ChangesDetected]
    ensures w.knownFiles == {"a.jpg", "b.png", "c.gif"}
  {
    w := new ChangeWatcher();
    w.Start(["a.jpg", "b.png"]);
    var listing := [Entry("a.jpg", File), Entry("b.png", File), Entry("c.gif", File)];
    ExampleListing();
    assert w.knownFiles == {"a.jpg", "b.png"};
    w.Tick(Listing(listing));
    w.Tick(Listing(listing));
  }

  lemma ExampleListing()
    ensures ImageNameSet([Entry("a.jpg", File), Entry("b.png", File), Entry("c.gif", File)]) == {"a.jpg", "b.png", "c.gif"}
    ensures TickOf({"a.jpg", "b.png"}, Listing([Entry("a.jpg", File), Entry("b.png", File), Entry("c.gif", File)])).posted == [ChangesDetected]
  {
    assert EndsWithIgnoringCase("a.jpg", "." + "jpg");
    assert EndsWithIgnoringCase("b.png", "." + "png");
    assert EndsWithIgnoringCase("c.gif", "." + "gif");
    var listing := [Entry("a.jpg", File), Entry("b.png", File), Entry("c.gif", File)];
    assert ImageNameSet(listing) == {"a.jpg", "b.png", "c.gif"};
    assert "c.gif" !in {"a.jpg", "b.png"};
    TickOnListing({"a.jpg", "b.png"}, listing);
  }
}
