/**
 * The watch file of a squirrel project: a `squirrel` root element whose
 * children are a descriptive comment followed by one `watches` bucket per
 * calendar day, each bucket holding the `watch` snapshots (timestamp and
 * word count) recorded that day.
 *
 * The tree is modelled by the sequence of the root's children. Python's
 * `str(dt)` of the snapshot timestamp is an opaque string; `dt.date()` is a
 * `Date`, formatted with `FormatDate`; `str(total)` is `IntToString`.
 */
module WatchLog {
  import opened Wrappers
  import opened Formatting

  /** A `watch` element: its `datetime` attribute and its text, the count. */
  datatype Watch = Watch(datetime: string, text: string)

  /** A child of the root: the comment, or a `watches` bucket. */
  datatype Node =
    | Comment(note: string)
    | Watches(date: string, prevCount: string, watches: seq<Watch>)

  /** The comment a freshly built watch file holds. */
  const Notice: string := "This is file generation by squirrel. Modify it at your own risk."

  /** Child `i` of the root is the bucket whose date string is `key`. */
  predicate IsBucket(root: seq<Node>, i: int, key: string) {
    0 <= i < |root| && root[i].Watches? && root[i].date == key
  }

  /** Every bucket holds at least one snapshot. */
  predicate NonEmptyBuckets(root: seq<Node>) {
    forall i :: 0 <= i < |root| && root[i].Watches? ==> |root[i].watches| > 0
  }

  /** No two buckets carry the same date. */
  predicate DistinctDates(root: seq<Node>) {
    forall i, j :: 0 <= i < j < |root| && root[i].Watches? && root[j].Watches? ==> root[i].date != root[j].date
  }

  /** The comment comes first and every other child is a bucket. */
  predicate CommentFirst(root: seq<Node>) {
    |root| >= 1 && root[0].Comment? && forall i :: 1 <= i < |root| ==> root[i].Watches?
  }

  /** The shape every watch file written by squirrel has. */
  predicate Valid(root: seq<Node>) {
    CommentFirst(root) && NonEmptyBuckets(root) && DistinctDates(root)
  }

  /** `get_watches_last_count`: the text of a bucket's last snapshot, zero for an empty bucket. */
  function LastCount(b: Node): (count: string)
    requires b.Watches?
    ensures |b.watches| == 0 ==> count == "0"
    ensures |b.watches| > 0 ==> count == b.watches[|b.watches| - 1].text
  {
    if |b.watches| == 0 then "0" else b.watches[|b.watches| - 1].text
  }

  /** The pair `get_watches_data` records for a bucket: its `prev_count` and its last count. */
  function Entry(b: Node): (string, string)
    requires b.Watches?
  {
    (b.prevCount, LastCount(b))
  }

  /** The first bucket at or after child `from` whose date is `key`, as the scan of `get_watches_entry` meets it. */
  function FirstBucketFrom(root: seq<Node>, key: string, from: nat): (found: Option<nat>)
    ensures found.Some? ==> from <= found.value && IsBucket(root, found.value, key)
    ensures found.Some? ==> forall j :: from <= j < found.value ==> !IsBucket(root, j, key)
    ensures found.None? ==> forall j :: from <= j < |root| ==> !IsBucket(root, j, key)
    decreases |root| - from
  {
    if from >= |root| then None
    else if IsBucket(root, from, key) then Some(from)
    else FirstBucketFrom(root, key, from + 1)
  }

  /** The last bucket among the first `n` children. */
  function LastBucketBefore(root: seq<Node>, n: nat): (last: Option<nat>)
    requires n <= |root|
    ensures last.Some? ==> last.value < n && root[last.value].Watches?
    ensures last.Some? ==> forall j :: last.value < j < n ==> !root[j].Watches?
    ensures last.None? ==> forall j :: 0 <= j < n ==> !root[j].Watches?
  {
    if n == 0 then None
    else if root[n - 1].Watches? then Some(n - 1)
    else LastBucketBefore(root, n - 1)
  }

  /** The "latest" view (key `-1`): the last bucket's entry, or ("0", "0") while the root holds at most one child. */
  function LatestView(root: seq<Node>): (v: (string, string))
    ensures |root| <= 1 ==> v == ("0", "0")
  {
    if |root| <= 1 then ("0", "0")
    else match LastBucketBefore(root, |root|)
      case Some(i) => Entry(root[i])
      case None => ("0", "0")
  }

  /** `root[-1][-1].text`, or "0" when the last child is the comment or has no snapshot. */
  function PrevCount(root: seq<Node>): (p: string)
    ensures |root| > 0 && root[|root| - 1].Watches? ==> p == LastCount(root[|root| - 1])
    ensures |root| == 0 || root[|root| - 1].Comment? ==> p == "0"
  {
    if |root| == 0 then "0"
    else match root[|root| - 1]
      case Comment(_) => "0"
      case Watches(_, _, ws) => if |ws| == 0 then "0" else ws[|ws| - 1].text
  }

  /** The outcome of `add_watch_entry`: the new children of the root and the returned flag. */
  datatype Appended = Appended(root: seq<Node>, written: bool)

  /**
   * `add_watch_entry(total, dt)`: add a snapshot to the bucket of `date` when
   * the count changed, or open a new bucket for a date not seen yet.
   */
  function AddWatch(root: seq<Node>, total: int, date: Date, stamp: string): (r: Appended)
    requires NonEmptyBuckets(root)
    ensures NonEmptyBuckets(r.root)
    ensures |root| <= |r.root| <= |root| + 1
  {
    var key := FormatDate(date);
    var count := IntToString(total);
    match FirstBucketFrom(root, key, 0)
    case Some(i) =>
      var ws := root[i].watches;
      if ws[|ws| - 1].text != count then
        Appended(root[i := root[i].(watches := ws + [Watch(stamp, count)])], true)
      else
        Appended(root, false)
    case None =>
      Appended(root + [Watches(key, PrevCount(root), [Watch(stamp, count)])], true)
  }

  /** `get_watches_entry(date)`: scan the buckets in order for the one dated `date`. */
  method FindBucket(root: seq<Node>, date: Date) returns (found: Option<nat>)
    ensures found == FirstBucketFrom(root, FormatDate(date), 0)
    ensures found.Some? ==> IsBucket(root, found.value, FormatDate(date))
    ensures found.None? ==> forall j :: 0 <= j < |root| ==> !IsBucket(root, j, FormatDate(date))
  {
    var key := FormatDate(date);
    found := None;
    var i := 0;
    while i < |root| && found.None?
      invariant 0 <= i <= |root|
      invariant found.None? ==> FirstBucketFrom(root, key, i) == FirstBucketFrom(root, key, 0)
      invariant found.Some? ==> found == FirstBucketFrom(root, key, 0)
    {
      if root[i].Watches? && root[i].date == key {
        found := Some(i);
      }
      i := i + 1;
    }
  }

  /** Bucket `i` is the last one among the first `n` children that carries its date. */
  predicate LastOfDateBefore(root: seq<Node>, i: int, n: int)
    requires n <= |root|
  {
    0 <= i < n && root[i].Watches? &&
    forall j :: i < j < n && root[j].Watches? ==> root[j].date != root[i].date
  }

  /** The dates of the buckets among the first `n` children. */
  function DatesBefore(root: seq<Node>, n: nat): set<string>
    requires n <= |root|
  {
    set i | 0 <= i < n && root[i].Watches? :: root[i].date
  }

  /** The date-to-entry map built from the first `n` children, later buckets overriding earlier ones. */
  function DateMap(root: seq<Node>, n: nat): map<string, (string, string)>
    requires n <= |root|
  {
    if n == 0 then map[]
    else if root[n - 1].Watches? then DateMap(root, n - 1)[root[n - 1].date := Entry(root[n - 1])]
    else DateMap(root, n - 1)
  }

  /** The map holds the dates of the first `n` children, each with the entry of its last bucket. */
  lemma {:induction false} DateMapContents(root: seq<Node>, n: nat)
    requires n <= |root|
    ensures DateMap(root, n).Keys == DatesBefore(root, n)
    ensures forall i :: LastOfDateBefore(root, i, n) ==> DateMap(root, n)[root[i].date] == Entry(root[i])
  {
    if n > 0 {
      DateMapContents(root, n - 1);
      if root[n - 1].Watches? {
        assert DatesBefore(root, n) == DatesBefore(root, n - 1) + {root[n - 1].date};
      } else {
        assert DatesBefore(root, n) == DatesBefore(root, n - 1);
      }
      forall i | LastOfDateBefore(root, i, n)
        ensures DateMap(root, n)[root[i].date] == Entry(root[i])
      {
        if i < n - 1 {
          assert LastOfDateBefore(root, i, n - 1);
        }
      }
    }
  }

  /** With distinct dates every bucket is the last of its date. */
  lemma DistinctDatesLast(root: seq<Node>, i: int)
    requires DistinctDates(root) && 0 <= i < |root| && root[i].Watches?
    ensures LastOfDateBefore(root, i, |root|)
  {
  }

  /** The map the loop of `get_watches_data` builds, once its key "-1" holds the entry of the last bucket. */
  lemma FinalDataContents(root: seq<Node>, entry: (string, string))
    requires |root| > 1 && LastBucketBefore(root, |root|).Some?
    requires entry == Entry(root[LastBucketBefore(root, |root|).value])
    ensures var data := (map["-1" := ("0", "0")] + DateMap(root, |root|))["-1" := entry];
            && data["-1"] == LatestView(root)
            && data.Keys == {"-1"} + DatesBefore(root, |root|)
            && (forall i :: LastOfDateBefore(root, i, |root|) && root[i].date != "-1" ==> data[root[i].date] == Entry(root[i]))
            && (DistinctDates(root) ==>
                  forall i :: 0 <= i < |root| && root[i].Watches? && root[i].date != "-1" ==> data[root[i].date] == Entry(root[i]))
  {
    DateMapContents(root, |root|);
    forall i | 0 <= i < |root| && root[i].Watches? && DistinctDates(root)
      ensures LastOfDateBefore(root, i, |root|)
    {
      DistinctDatesLast(root, i);
    }
  }

  /**
   * `get_watches_data()`: a map from each bucket's date to its entry, plus the
   * key "-1" for the latest bucket. A date seen twice keeps the later bucket.
   */
  method WatchesData(root: seq<Node>) returns (data: map<string, (string, string)>)
    requires |root| > 1 ==> exists i :: 0 <= i < |root| && root[i].Watches?
    ensures "-1" in data && data["-1"] == LatestView(root)
    ensures data.Keys == {"-1"} + (if |root| > 1 then DatesBefore(root, |root|) else {})
    ensures |root| > 1 ==> forall i :: LastOfDateBefore(root, i, |root|) && root[i].date != "-1" ==>
                                      data[root[i].date] == Entry(root[i])
    ensures |root| > 1 && DistinctDates(root) ==>
              forall i :: 0 <= i < |root| && root[i].Watches? && root[i].date != "-1" ==>
                          data[root[i].date] == Entry(root[i])
  {
    data := map["-1" := ("0", "0")];
    if |root| > 1 {
      var latest: Option<(string, string)> := None;
      var n := 0;
      while n < |root|
        invariant 0 <= n <= |root|
        invariant data == map["-1" := ("0", "0")] + DateMap(root, n)
        invariant latest == match LastBucketBefore(root, n)
                              case Some(i) => Some(Entry(root[i]))
                              case None => None
      {
        if root[n].Watches? {
          data := data[root[n].date := Entry(root[n])];
          latest := Some(Entry(root[n]));
        }
        n := n + 1;
      }
      match latest
      case Some(entry) =>
        FinalDataContents(root, entry);
        data := data["-1" := entry];
      case None =>
        assert false;
    }
  }

  /** A fresh watch file, and the watch file as `add_watch_entry` reads, changes and rewrites it. */
  class WatchFile {
    var root: seq<Node>

    /** `build_watch_file`: a root holding only the comment. */
    constructor Build()
      ensures root == [Comment(Notice)]
      ensures Valid(root)
      ensures LatestView(root) == ("0", "0")
    {
      root := [Comment(Notice)];
    }

    /** `add_watch_entry(total, dt)`, with `dt` given as its date and its `str` form. */
    method AddWatchEntry(total: int, date: Date, stamp: string) returns (written: bool)
      requires NonEmptyBuckets(root)
      modifies this
      ensures Appended(root, written) == AddWatch(old(root), total, date, stamp)
      ensures Valid(old(root)) ==> Valid(root)
    {
      ghost var before := root;
      var found := FindBucket(root, date);
      var count := IntToString(total);
      if found.Some? {
        var bucket := root[found.value];
        if bucket.watches[|bucket.watches| - 1].text == count {
          return false;
        }
        root := root[found.value := bucket.(watches := bucket.watches + [Watch(stamp, count)])];
      } else {
        var prevCount := PrevCount(root);
        root := root + [Watches(FormatDate(date), prevCount, [Watch(stamp, count)])];
      }
      written := true;
      AddWatchKeepsValid(before, total, date, stamp);
    }
  }

  /** A bucket dated `key` in a root with distinct dates is the one the scan finds. */
  lemma BucketUnique(root: seq<Node>, key: string, i: nat)
    requires DistinctDates(root) && IsBucket(root, i, key)
    ensures FirstBucketFrom(root, key, 0) == Some(i)
  {
  }

  /** Same day, same count: nothing is added and the call reports `False`. */
  lemma AddUnchangedCount(root: seq<Node>, total: int, date: Date, stamp: string, i: nat)
    requires NonEmptyBuckets(root) && DistinctDates(root)
    requires IsBucket(root, i, FormatDate(date))
    requires root[i].watches[|root[i].watches| - 1].text == IntToString(total)
    ensures AddWatch(root, total, date, stamp) == Appended(root, false)
  {
    BucketUnique(root, FormatDate(date), i);
  }

  /** Same day, new count: one snapshot goes to the end of that day's bucket and nothing else changes. */
  lemma AddToExistingBucket(root: seq<Node>, total: int, date: Date, stamp: string, i: nat)
    requires NonEmptyBuckets(root) && DistinctDates(root)
    requires IsBucket(root, i, FormatDate(date))
    requires root[i].watches[|root[i].watches| - 1].text != IntToString(total)
    ensures var r := AddWatch(root, total, date, stamp);
            && r.written
            && |r.root| == |root|
            && r.root[i] == Watches(root[i].date, root[i].prevCount, root[i].watches + [Watch(stamp, IntToString(total))])
            && forall j :: 0 <= j < |root| && j != i ==> r.root[j] == root[j]
  {
    BucketUnique(root, FormatDate(date), i);
  }

  /**
   * A date with no bucket: one bucket is appended after every existing child,
   * with the formatted date, `prev_count` taken from the last child, and a
   * single snapshot -- whatever the count, even one equal to the previous
   * day's last count (deduplication is per day only).
   */
  lemma AddNewBucket(root: seq<Node>, total: int, date: Date, stamp: string)
    requires NonEmptyBuckets(root)
    requires forall j :: 0 <= j < |root| ==> !IsBucket(root, j, FormatDate(date))
    ensures var r := AddWatch(root, total, date, stamp);
            && r.written
            && |r.root| == |root| + 1
            && r.root[..|root|] == root
            && r.root[|root|] == Watches(FormatDate(date), PrevCount(root), [Watch(stamp, IntToString(total))])
  {
  }

  /** The `-1` view of a root with more than one child is the entry of the bucket that no other bucket follows. */
  lemma LatestViewIsLastBucket(root: seq<Node>, i: nat)
    requires |root| > 1 && i < |root| && root[i].Watches?
    requires forall j :: i < j < |root| ==> !root[j].Watches?
    ensures LatestView(root) == Entry(root[i])
  {
  }

  /**
   * Reading back what `add_watch_entry` stored: after an addition, the bucket
   * the scan finds for that date ends in `str(total)`, whether the snapshot
   * was appended, a bucket was opened, or the count was already there.
   */
  lemma ReadAfterAdd(root: seq<Node>, total: int, date: Date, stamp: string)
    requires Valid(root)
    ensures var r := AddWatch(root, total, date, stamp);
            var found := FirstBucketFrom(r.root, FormatDate(date), 0);
            found.Some? && LastCount(r.root[found.value]) == IntToString(total)
  {
    var key := FormatDate(date);
    var r := AddWatch(root, total, date, stamp);
    AddWatchKeepsValid(root, total, date, stamp);
    match FirstBucketFrom(root, key, 0)
    case Some(i) =>
      BucketUnique(r.root, key, i);
    case None =>
      BucketUnique(r.root, key, |root|);
  }

  /** In a valid file the carried-over `prev_count` is the latest bucket's last count ("0" in a fresh file). */
  lemma PrevCountIsLatest(root: seq<Node>)
    requires Valid(root)
    ensures PrevCount(root) == LatestView(root).1
  {
  }

  /** `add_watch_entry` keeps a valid watch file valid: one bucket per date, none empty, the comment first. */
  lemma AddWatchKeepsValid(root: seq<Node>, total: int, date: Date, stamp: string)
    requires NonEmptyBuckets(root)
    ensures Valid(root) ==> Valid(AddWatch(root, total, date, stamp).root)
  {
    var key := FormatDate(date);
    var r := AddWatch(root, total, date, stamp);
    match FirstBucketFrom(root, key, 0)
    case Some(i) =>
      assert forall j :: 0 <= j < |r.root| ==> r.root[j].Watches? == root[j].Watches?;
      assert forall j :: 0 <= j < |r.root| && r.root[j].Watches? ==> r.root[j].date == root[j].date;
    case None =>
      assert forall j :: 0 <= j < |root| ==> r.root[j] == root[j];
      assert r.root[|root|].date == key;
      forall j | 0 <= j < |root| && root[j].Watches?
        ensures root[j].date != key
      {
        assert !IsBucket(root, j, key);
      }
  }

  /**
   * After an addition for the newest day (a new date, or the date of the
   * last bucket), the latest view reports the new count, and its
   * `prev_count` is the previous day's last count when a bucket was opened.
   */
  lemma LatestAfterAdd(root: seq<Node>, total: int, date: Date, stamp: string)
    requires Valid(root)
    requires (forall j :: 0 <= j < |root| ==> !IsBucket(root, j, FormatDate(date))) || IsBucket(root, |root| - 1, FormatDate(date))
    ensures var r := AddWatch(root, total, date, stamp);
            LatestView(r.root) ==
              if IsBucket(root, |root| - 1, FormatDate(date)) then (LatestView(root).0, IntToString(total))
              else (LatestView(root).1, IntToString(total))
  {
  }

  /** Repeating an addition on the same day with the same count is a no-op that returns `False`. */
  lemma AddIdempotent(root: seq<Node>, total: int, date: Date, stamp: string, later: string)
    requires Valid(root)
    ensures var r := AddWatch(root, total, date, stamp);
            Valid(r.root) && AddWatch(r.root, total, date, later) == Appended(r.root, false)
  {
    var key := FormatDate(date);
    var r := AddWatch(root, total, date, stamp);
    AddWatchKeepsValid(root, total, date, stamp);
    match FirstBucketFrom(root, key, 0)
    case Some(i) =>
      AddUnchangedCount(r.root, total, date, later, i);
    case None =>
      AddUnchangedCount(r.root, total, date, later, |root|);
  }

  /**
   * Counts 100, 100 again, 250 on one day and 400 on the next: the repeated
   * 100 is dropped, the first day's bucket holds 100 and 250, the second
   * day's bucket carries 250 over as its `prev_count`, and the latest view
   * is ("250", "400").
   */
  lemma {:induction false} TwoDayScenario(day1: Date, day2: Date, t1: string, t2: string, t3: string, t4: string)
    requires day1 != day2
    ensures var r1 := AddWatch([Comment(Notice)], 100, day1, t1);
            var r2 := AddWatch(r1.root, 100, day1, t2);
            var r3 := AddWatch(r2.root, 250, day1, t3);
            var r4 := AddWatch(r3.root, 400, day2, t4);
            && r1.written && !r2.written && r3.written && r4.written
            && r4.root == [Comment(Notice),
                           Watches(FormatDate(day1), "0", [Watch(t1, "100"), Watch(t3, "250")]),
                           Watches(FormatDate(day2), "250", [Watch(t4, "400")])]
            && LatestView(r4.root) == ("250", "400")
  {
    CountStrings();
    var d1, d2 := FormatDate(day1), FormatDate(day2);
    if d1 == d2 {
      FormatDateInjective(day1, day2);
    }
    var root0 := [Comment(Notice)];
    var r1 := AddWatch(root0, 100, day1, t1);
    AddNewBucket(root0, 100, day1, t1);
    assert r1.root == [Comment(Notice), Watches(d1, "0", [Watch(t1, "100")])];
    assert DistinctDates(r1.root);
    assert IsBucket(r1.root, 1, d1);
    assert r1.root[1].watches[0].text == IntToString(100);
    var r2 := AddWatch(r1.root, 100, day1, t2);
    AddUnchangedCount(r1.root, 100, day1, t2, 1);
    assert r2.root == r1.root;
    assert r2.root[1].watches[0].text != IntToString(250);
    var r3 := AddWatch(r2.root, 250, day1, t3);
    AddToExistingBucket(r2.root, 250, day1, t3, 1);
    var b1 := Watches(d1, "0", [Watch(t1, "100"), Watch(t3, "250")]);
    assert r3.root[1] == b1;
    assert r3.root == [Comment(Notice), b1];
    assert !IsBucket(r3.root, 0, d2) && !IsBucket(r3.root, 1, d2);
    var r4 := AddWatch(r3.root, 400, day2, t4);
    AddNewBucket(r3.root, 400, day2, t4);
    var b2 := Watches(d2, "250", [Watch(t4, "400")]);
    assert r4.root[2] == b2;
    assert r4.root == [Comment(Notice), b1, b2];
    assert LastBucketBefore(r4.root, 3) == Some(2);
  }

  lemma CountStrings()
    ensures IntToString(100) == "100" && IntToString(250) == "250" && IntToString(400) == "400"
  {
  }
}
