/** The foreground side of `startBackgroundPolling` (app.js:314-401): a fresh
    worker replaces the previous one, and the names of a foreground listing
    are sent to it with `start` as its baseline. */
module Polling {
  import opened Entries
  import opened Watcher

  /** The baseline loop of app.js:385-394, with the regular-expression literal
      of app.js:390 as written. */
  method CollectInitialFiles(entries: seq<Entry>) returns (initialFiles: seq<string>)
    ensures initialFiles == Names(Kept(entries, MatchesBaselinePattern))
  {
    initialFiles := [];
    var i := 0;
    while i < |entries|
      invariant 0 <= i <= |entries|
      invariant initialFiles == Names(Kept(entries[..i], MatchesBaselinePattern))
    {
      var entry := entries[i];
      KeptSnoc(entries[..i], entry, MatchesBaselinePattern);
      assert entries[..i + 1] == entries[..i] + [entry];
      if entry.kind == File && MatchesBaselinePattern(entry.name) {
        initialFiles := initialFiles + [entry.name];
      }
      i := i + 1;
    }
    assert entries[..i] == entries;
  }

  /** The baseline with the pattern the gallery and the worker use. */
  function IntendedInitialFiles(entries: seq<Entry>): (r: seq<string>)
  {
    Names(Kept(entries, IsImageName))
  }

  /** `startBackgroundPolling`: the old worker is terminated and a new one is
      created; the baseline listing runs in an async function without a catch,
      so when that listing fails `start` is never posted and the new worker
      stays idle, with no interval and nothing posted. */
  method StartBackgroundPolling(scan: ScanResult) returns (worker: ChangeWatcher)
    ensures fresh(worker) && worker.Valid() && worker.outbox == []
    ensures scan.ScanFailed? ==>
      !worker.Running() && worker.intervalId == None && worker.knownFiles == {}
    ensures scan.Listing? ==> worker.Running()
    ensures scan.Listing? ==>
      worker.knownFiles == NameSet(Names(Kept(scan.entries, MatchesBaselinePattern)))
  {
    worker := new ChangeWatcher();
    if scan.ScanFailed? {
      return;
    }
    var initialFiles := CollectInitialFiles(scan.entries);
    worker.Start(initialFiles);
  }

  /** The names of a sequence of entries, as a set, are exactly the names of its members. */
  lemma NameSetOfKept(entries: seq<Entry>, matches: string -> bool, n: string)
    ensures n in Names(Kept(entries, matches)) <==>
      exists e :: e in entries && e.kind == File && matches(e.name) && e.name == n
  {
    var kept := Kept(entries, matches);
    if n in Names(kept) {
      var i :| 0 <= i < |kept| && Names(kept)[i] == n;
      KeptMembers(entries, matches, kept[i]);
    }
    forall e | e in entries && e.kind == File && matches(e.name) ensures e.name in Names(kept) {
      KeptMembers(entries, matches, e);
      var i :| 0 <= i < |kept| && kept[i] == e;
      assert Names(kept)[i] == e.name;
    }
  }

  /** On a folder whose names hold no backslash, the baseline as written is
      empty, so the first tick on an unchanged folder with at least one image
      fires `changes-detected`. */
  lemma {:induction false} BaselineFirstTickFires(entries: seq<Entry>)
    requires forall e :: e in entries ==> '\\' !in e.name
    requires ImageNameSet(entries) != {}
    ensures NameSet(Names(Kept(entries, MatchesBaselinePattern))) == {}
    ensures TickOf(NameSet(Names(Kept(entries, MatchesBaselinePattern))), Listing(entries)).posted == [ChangesDetected]
  {
    var baseline := NameSet(Names(Kept(entries, MatchesBaselinePattern)));
    forall e | e in entries ensures !MatchesBaselinePattern(e.name) {
      BaselinePatternNeedsBackslash(e.name);
    }
    forall n ensures n !in baseline {
      NameSetOfKept(entries, MatchesBaselinePattern, n);
    }
    assert baseline == {};
    TickOnListing(baseline, entries);
  }

  /** With the intended baseline, the first tick on an unchanged folder posts
      nothing and keeps the baseline. */
  lemma IntendedBaselineFirstTickQuiet(entries: seq<Entry>)
    ensures var baseline := NameSet(IntendedInitialFiles(entries));
      && baseline == ImageNameSet(entries)
      && TickOf(baseline, Listing(entries)) == TickEffect(baseline, [], false)
  {
    var baseline := NameSet(IntendedInitialFiles(entries));
    forall n ensures n in baseline <==> n in ImageNameSet(entries) {
      NameSetOfKept(entries, IsImageName, n);
    }
    assert baseline == ImageNameSet(entries);
    TickOnListing(baseline, entries);
  }
}
