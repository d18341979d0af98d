/**
 * The inverted function table as a list: what insert and remove do to it, and what holds of it
 * over every run of the two public calls.
 */
module InvertedTable {
  import opened Sequences
  import opened Wrappers

  datatype Entry = Entry(directory: nat, imageBase: nat, imageSize: nat, directorySize: nat)

  /** The searched entries, the flag that says an insert was turned away, and the table's bounds:
      a pinned table (Windows 8 and later) keeps slot 0 for ntdll. */
  datatype Table = Table(entries: seq<Entry>, overflow: bool, maxCount: nat, pinned: bool) {
    function First(): nat {
      if pinned then 1 else 0
    }
  }

  ghost predicate Sorted(s: seq<Entry>, from: nat) {
    forall i, j :: from <= i < j < |s| ==> s[i].imageBase <= s[j].imageBase
  }

  /** The entries from the first searched slot on are sorted, and overflow means full. */
  ghost predicate Ordered(t: Table) {
    && t.First() <= |t.entries| <= t.maxCount
    && Sorted(t.entries, t.First())
    && (t.overflow ==> |t.entries| == t.maxCount)
  }

  /** The first slot from i on whose image lies above the base. */
  function Slot(s: seq<Entry>, i: nat, base: nat): (k: nat)
    requires i <= |s|
    ensures i <= k <= |s|
    ensures forall j :: i <= j < k ==> s[j].imageBase <= base
    ensures k < |s| ==> base < s[k].imageBase
    decreases |s| - i
  {
    if i < |s| && s[i].imageBase <= base then Slot(s, i + 1, base) else i
  }

  /** The first slot from i on that holds the base, or the length. */
  function Find(s: seq<Entry>, i: nat, base: nat): (k: nat)
    requires i <= |s|
    ensures i <= k <= |s|
    ensures forall j :: i <= j < k ==> s[j].imageBase != base
    ensures k < |s| ==> s[k].imageBase == base
    decreases |s| - i
  {
    if i < |s| && s[i].imageBase != base then Find(s, i + 1, base) else i
  }

  function Added(s: seq<Entry>, k: nat, e: Entry): seq<Entry>
    requires k <= |s|
  {
    s[..k] + [e] + s[k..]
  }

  function Insert(t: Table, e: Entry): Table
    requires t.First() <= |t.entries|
  {
    if |t.entries| == t.maxCount then t.(overflow := true)
    else t.(entries := Added(t.entries, Slot(t.entries, t.First(), e.imageBase), e))
  }

  function Remove(t: Table, base: nat): Table {
    var k := Find(t.entries, 0, base);
    var rest := if k == |t.entries| then t.entries else RemoveAt(t.entries, k);
    t.(entries := rest, overflow := t.overflow && |rest| == t.maxCount)
  }

  // ---------- The public calls ----------

  /** What page protection answers before and after the change; asked from Windows 8.1 on. */
  datatype Protect = NotNeeded | Asked(open: NtStatus, close: NtStatus)

  predicate Opens(p: Protect) {
    p.Asked? ==> p.open.Success?
  }

  predicate Closes(p: Protect) {
    p.Asked? ==> p.close.Success?
  }

  datatype Call =
    | InsertCall(entry: Entry, protect: Protect)
    | RemoveCall(base: nat, protect: Protect)

  /** The table after a public call. */
  function After(t: Table, c: Call): Table
    requires t.First() <= |t.entries|
  {
    if !Opens(c.protect) then t
    else match c
      case InsertCall(e, _) => Insert(t, e)
      case RemoveCall(base, _) => Remove(t, base)
  }

  /** What the insert call answers. */
  function InsertStatus(t: Table, c: Call): NtStatus
    requires t.First() <= |t.entries| && c.InsertCall?
  {
    if !Opens(c.protect) then c.protect.open
    else if !Closes(c.protect) then c.protect.close
    else if After(t, c).overflow then NoMemory
    else Success
  }

  /** The call does not take ntdll's own entry out of slot 0. */
  predicate SparesPinned(t: Table, c: Call) {
    t.pinned && c.RemoveCall? && |t.entries| > 0 ==> c.base != t.entries[0].imageBase
  }

  lemma InsertKeepsOrdered(t: Table, e: Entry)
    requires Ordered(t)
    ensures Ordered(Insert(t, e))
    ensures t.pinned ==> Insert(t, e).entries[0] == t.entries[0]
  {
    var k := Slot(t.entries, t.First(), e.imageBase);
    var s := Added(t.entries, k, e);
    forall i, j | t.First() <= i < j < |s|
      ensures s[i].imageBase <= s[j].imageBase
    {
      assert i < k ==> s[i] == t.entries[i];
      assert i > k ==> s[i] == t.entries[i - 1];
      assert j < k ==> s[j] == t.entries[j];
      assert j > k ==> s[j] == t.entries[j - 1];
    }
  }

  lemma RemoveKeepsOrdered(t: Table, base: nat)
    requires Ordered(t) && (t.pinned ==> base != t.entries[0].imageBase)
    ensures Ordered(Remove(t, base))
    ensures t.pinned ==> Remove(t, base).entries[0] == t.entries[0]
  {
    var k := Find(t.entries, 0, base);
    if k < |t.entries| {
      var s := RemoveAt(t.entries, k);
      forall i, j | t.First() <= i < j < |s|
        ensures s[i].imageBase <= s[j].imageBase
      {
        assert s[i] == t.entries[if i < k then i else i + 1];
        assert s[j] == t.entries[if j < k then j else j + 1];
      }
    }
  }

  lemma AddedCounts(s: seq<Entry>, k: nat, e: Entry)
    requires k <= |s|
    ensures multiset(Added(s, k, e)) == multiset(s) + multiset{e}
  {
    assert s == s[..k] + s[k..];
  }

  lemma DroppedCounts(s: seq<Entry>, k: nat)
    requires k < |s|
    ensures multiset(RemoveAt(s, k)) + multiset{s[k]} == multiset(s)
  {
    assert s == s[..k] + [s[k]] + s[k + 1..];
  }

  /** A removal undoes the insertion of an image that was not in the table. */
  lemma RemoveUndoesInsert(t: Table, e: Entry)
    requires Ordered(t) && |t.entries| < t.maxCount
    requires forall j :: 0 <= j < |t.entries| ==> t.entries[j].imageBase != e.imageBase
    ensures Remove(Insert(t, e), e.imageBase) == t
  {
    var k := Slot(t.entries, t.First(), e.imageBase);
    var s := Added(t.entries, k, e);
    var f := Find(s, 0, e.imageBase);
    assert s[k] == e;
    assert forall j :: 0 <= j < k ==> s[j] == t.entries[j];
    assert f == k;
    assert RemoveAt(s, k) == t.entries;
  }

  /** With the pages protected as asked, the status says success exactly when the entry was added. */
  lemma StatusTellsInsertion(t: Table, c: Call)
    requires Ordered(t) && c.InsertCall?
    ensures InsertStatus(t, c).Success? <==> Closes(c.protect) && After(t, c).entries != t.entries
    ensures After(t, c).entries != t.entries <==> Opens(c.protect) && |t.entries| < t.maxCount
  {
    var k := Slot(t.entries, t.First(), c.entry.imageBase);
    assert |Added(t.entries, k, c.entry)| == |t.entries| + 1;
  }

  // ---------- Runs ----------

  /** The tables that a run of calls goes through. */
  ghost predicate Runs(ts: seq<Table>, cs: seq<Call>) {
    && |ts| == |cs| + 1
    && (forall i :: 0 <= i < |ts| ==> ts[i].First() <= |ts[i].entries|)
    && (forall i :: 0 <= i < |cs| ==> SparesPinned(ts[i], cs[i]) && ts[i + 1] == After(ts[i], cs[i]))
  }

  /** The entry a call puts in, if any. */
  ghost function Gain(t: Table, c: Call): multiset<Entry> {
    if c.InsertCall? && Opens(c.protect) && |t.entries| != t.maxCount then multiset{c.entry} else multiset{}
  }

  /** The entry a call takes out, if any: the first one with the image's base. */
  ghost function Loss(t: Table, c: Call): multiset<Entry> {
    if c.RemoveCall? && Opens(c.protect) && Find(t.entries, 0, c.base) < |t.entries|
    then multiset{t.entries[Find(t.entries, 0, c.base)]} else multiset{}
  }

  /** What each call of a run puts in, and what it takes out. */
  ghost function Gains(ts: seq<Table>, cs: seq<Call>): (ms: seq<multiset<Entry>>)
    requires |ts| == |cs| + 1
    ensures |ms| == |cs|
  {
    seq(|cs|, i requires 0 <= i < |cs| => Gain(ts[i], cs[i]))
  }

  ghost function Losses(ts: seq<Table>, cs: seq<Call>): (ms: seq<multiset<Entry>>)
    requires |ts| == |cs| + 1
    ensures |ms| == |cs|
  {
    seq(|cs|, i requires 0 <= i < |cs| => Loss(ts[i], cs[i]))
  }

  /** The first n of them together. */
  ghost function Sum<T>(ms: seq<multiset<T>>, n: nat): multiset<T>
    requires n <= |ms|
  {
    if n == 0 then multiset{} else Sum(ms, n - 1) + ms[n - 1]
  }

  lemma CallKeepsOrdered(t: Table, c: Call)
    requires Ordered(t) && SparesPinned(t, c)
    ensures Ordered(After(t, c)) && After(t, c).pinned == t.pinned && After(t, c).maxCount == t.maxCount
    ensures t.pinned ==> After(t, c).entries[0] == t.entries[0]
  {
    if Opens(c.protect) {
      match c
      case InsertCall(e, _) => InsertKeepsOrdered(t, e);
      case RemoveCall(base, _) => RemoveKeepsOrdered(t, base);
    }
  }

  lemma CallCounts(t: Table, c: Call)
    requires t.First() <= |t.entries|
    ensures multiset(After(t, c).entries) + Loss(t, c) == multiset(t.entries) + Gain(t, c)
  {
    match c
    case InsertCall(e, _) => InsertCounts(t, c);
    case RemoveCall(base, _) => RemoveCounts(t, c);
  }

  lemma InsertCounts(t: Table, c: Call)
    requires t.First() <= |t.entries| && c.InsertCall?
    ensures multiset(After(t, c).entries) + Loss(t, c) == multiset(t.entries) + Gain(t, c)
  {
    AddedCounts(t.entries, Slot(t.entries, t.First(), c.entry.imageBase), c.entry);
  }

  lemma RemoveCounts(t: Table, c: Call)
    requires t.First() <= |t.entries| && c.RemoveCall?
    ensures multiset(After(t, c).entries) + Loss(t, c) == multiset(t.entries) + Gain(t, c)
  {
    var k := Find(t.entries, 0, c.base);
    if k < |t.entries| {
      DroppedCounts(t.entries, k);
    }
  }

  /** Over every run the table stays sorted, slot 0 stays ntdll's, and overflow means full. */
  lemma {:induction false} RunKeepsOrdered(ts: seq<Table>, cs: seq<Call>, n: nat)
    requires Runs(ts, cs) && Ordered(ts[0]) && n <= |cs|
    ensures Ordered(ts[n]) && ts[n].pinned == ts[0].pinned && ts[n].maxCount == ts[0].maxCount
    ensures ts[0].pinned ==> ts[n].entries[0] == ts[0].entries[0]
  {
    if n != 0 {
      RunKeepsOrdered(ts, cs, n - 1);
      assert ts[n - 1 + 1] == After(ts[n - 1], cs[n - 1]);
      CallKeepsOrdered(ts[n - 1], cs[n - 1]);
    }
  }

  /** Over every run nothing is lost or made up: what is there and what was taken out is what was
      there at first and what was put in. */
  lemma RunCounts(ts: seq<Table>, cs: seq<Call>, n: nat)
    requires Runs(ts, cs) && n <= |cs|
    ensures multiset(ts[n].entries) + Sum(Losses(ts, cs), n) == multiset(ts[0].entries) + Sum(Gains(ts, cs), n)
  {
    var ms := seq(|ts|, i requires 0 <= i < |ts| => multiset(ts[i].entries));
    forall i: nat | i < |cs|
      ensures ms[i + 1] + Losses(ts, cs)[i] == ms[i] + Gains(ts, cs)[i]
    {
      CallCounts(ts[i], cs[i]);
    }
    Telescopes(ms, Losses(ts, cs), Gains(ts, cs), n);
  }

  /** Multisets that change by known gains and losses change by their sums. */
  lemma {:induction false} Telescopes<T>(
    ms: seq<multiset<T>>, losses: seq<multiset<T>>, gains: seq<multiset<T>>, n: nat)
    requires |losses| == |gains| == |ms| - 1 && n < |ms|
    requires forall i: nat :: i < |gains| ==> ms[i + 1] + losses[i] == ms[i] + gains[i]
    ensures ms[n] + Sum(losses, n) == ms[0] + Sum(gains, n)
  {
    if n != 0 {
      Telescopes(ms, losses, gains, n - 1);
      assert ms[n - 1 + 1] + losses[n - 1] == ms[n - 1] + gains[n - 1];
      Tally(ms[n - 1], ms[n], ms[0], Sum(losses, n - 1), Sum(gains, n - 1), losses[n - 1], gains[n - 1]);
    }
  }

  lemma Tally<T>(
    before: multiset<T>, after: multiset<T>, first: multiset<T>,
    losses: multiset<T>, gains: multiset<T>, loss: multiset<T>, gain: multiset<T>)
    requires before + losses == first + gains && after + loss == before + gain
    ensures after + (losses + loss) == first + (gains + gain)
  {
    assert after + (losses + loss) == (after + loss) + losses;
    assert (before + gain) + losses == (before + losses) + gain;
    assert (first + gains) + gain == first + (gains + gain);
  }
}
