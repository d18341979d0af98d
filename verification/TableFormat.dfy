/**
 * The inverted function table as ntdll lays it out on 32-bit builds, written down word by word, and what the loader's
 * own view of it comes to; and the header fields of the 64-bit table.
 */
module TableFormat {
  import opened InvertedTable
  import T = InvertedTables
  import opened Wrappers

  /** An entry's four words. */
  function EntryWords(e: Entry): (w: seq<nat>)
    ensures |w| == 4
  {
    [e.directory, e.imageBase, e.imageSize, e.directorySize]
  }

  function ListWords(entries: seq<Entry>, n: nat): (w: seq<nat>)
    requires n <= |entries|
    ensures |w| == 4 * n
  {
    if n == 0 then [] else ListWords(entries, n - 1) + EntryWords(entries[n - 1])
  }

  /** Count, MaxCount, Epoch and Overflow from Windows 8 on; before that there is no Epoch. */
  function HeaderWords(count: nat, maxCount: nat, epoch: nat, overflow: nat, win8: bool): seq<nat> {
    if win8 then [count, maxCount, epoch, overflow] else [count, maxCount, overflow]
  }

  lemma {:induction false} ListRead(w: seq<nat>, o: nat, entries: seq<Entry>, n: nat)
    requires n <= |entries| && o + 4 * n <= |w| && w[o..o + 4 * n] == ListWords(entries, n)
    ensures T.Plain(w, o, n) == entries[..n]
  {
    if n != 0 {
      var k := n - 1;
      var list := ListWords(entries, n);
      assert list[..4 * k] == ListWords(entries, k) && list[4 * k..] == EntryWords(entries[k]);
      assert w[o..o + 4 * k] == w[o..o + 4 * n][..4 * k];
      assert w[o + 4 * k..o + 4 * n] == w[o..o + 4 * n][4 * k..];
      ListRead(w, o, entries, k);
      LastRead(w, o + 4 * k, o + 4 * n, entries[k]);
      PlainOneMore(w, o, k, n, entries);
    }
  }

  lemma LastRead(w: seq<nat>, at: nat, end: nat, e: Entry)
    requires end == at + 4 <= |w| && w[at..end] == EntryWords(e)
    ensures Entry(w[at], w[at + 1], w[at + 2], w[at + 3]) == e
  {
    assert w[at] == w[at..end][0] && w[at + 1] == w[at..end][1];
    assert w[at + 2] == w[at..end][2] && w[at + 3] == w[at..end][3];
  }

  lemma PlainOneMore(w: seq<nat>, o: nat, k: nat, n: nat, entries: seq<Entry>)
    requires n == k + 1 <= |entries| && o + 4 * n <= |w| && T.Plain(w, o, k) == entries[..k]
    requires var at := o + 4 * k; Entry(w[at], w[at + 1], w[at + 2], w[at + 3]) == entries[k]
    ensures T.Plain(w, o, n) == entries[..n]
  {
    assert T.Plain(w, o, n)[..k] == T.Plain(w, o, k);
  }

  /** A table that was written so, with as many spare words as the code may move, is the table of its entries, with
      its overflow flag and its size; and the code may work on it. */
  lemma WrittenIsRead(
    w: seq<nat>, entries: seq<Entry>, maxCount: nat, epoch: nat, overflow: nat, spare: seq<nat>, win8: bool)
    requires w == HeaderWords(|entries|, maxCount, epoch, overflow, win8) + ListWords(entries, |entries|) + spare
    requires (win8 ==> |entries| >= 1) && |entries| <= maxCount && |w| >= 4 * maxCount + 8
    ensures T.Laid(w, win8)
    ensures T.TableIn(w, win8) == Table(entries, overflow != 0, maxCount, win8)
  {
    var o := if win8 then 4 else 3;
    var n := |entries|;
    assert w[o..o + 4 * n] == ListWords(entries, n);
    ListRead(w, o, entries, n);
    assert entries[..n] == entries;
  }

  /** The other way round: the words behind what the code leaves. */
  lemma ReadIsWritten(w: seq<nat>, win8: bool)
    requires T.Laid(w, win8)
    ensures var t, o := T.TableIn(w, win8), if win8 then 4 else 3;
            && w[0] == |t.entries| && w[1] == t.maxCount && (w[if win8 then 3 else 2] != 0 <==> t.overflow)
            && o + 4 * |t.entries| <= |w|
            && forall i :: 0 <= i < |t.entries| ==> w[o + 4 * i..o + 4 * i + 4] == EntryWords(t.entries[i])
  {
  }
}
