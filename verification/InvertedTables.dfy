/**
 * The two layouts of the inverted function table in memory, and the code that edits them in place:
 * records on 64-bit Windows; on 32-bit Windows words, which the code addresses through a record that
 * is shifted by one field. Both refine the list of module InvertedTable.
 */
module InvertedTables {
  import opened Sequences
  import opened Wrappers
  import opened InvertedTable

  // ---------- Block moves ----------

  /** s after n elements have been moved from src to dst. */
  function Moved<T>(s: seq<T>, dst: nat, src: nat, n: nat): (m: seq<T>)
    requires dst + n <= |s| && src + n <= |s|
    ensures |m| == |s|
  {
    s[..dst] + s[src..src + n] + s[dst + n..]
  }

  /** The C library's overlapping move: the direction keeps unread elements from being overwritten. */
  method RtlMoveMemory<T>(a: array<T>, dst: nat, src: nat, n: nat)
    requires dst + n <= a.Length && src + n <= a.Length
    modifies a
    ensures a[..] == Moved(old(a[..]), dst, src, n)
  {
    if dst <= src {
      MoveForward(a, dst, src, n);
    } else {
      MoveBackward(a, dst, src, n);
    }
  }

  lemma MovedOne<T>(s: seq<T>, dst: nat, src: nat, n: nat)
    requires dst + n < |s| && src + n < |s| && dst <= src
    ensures Moved(s, dst, src, n)[src + n] == s[src + n]
    ensures Moved(s, dst, src, n + 1) == Moved(s, dst, src, n)[dst + n := s[src + n]]
  {
  }

  lemma MovedOneBack<T>(s: seq<T>, dst: nat, src: nat, n: nat)
    requires 0 < dst && 0 < src && dst + n <= |s| && src + n <= |s| && src <= dst
    ensures Moved(s, dst, src, n)[src - 1] == s[src - 1]
    ensures Moved(s, dst - 1, src - 1, n + 1) == Moved(s, dst, src, n)[dst - 1 := s[src - 1]]
  {
  }

  lemma SameMove<T>(s: seq<T>, dst: nat, src: nat, dst1: nat, src1: nat, n: nat)
    requires dst + n <= |s| && src + n <= |s| && dst == dst1 && src == src1
    ensures Moved(s, dst, src, n) == Moved(s, dst1, src1, n)
  {
  }

  lemma MovedNone<T>(s: seq<T>, dst: nat, src: nat)
    requires dst <= |s| && src <= |s|
    ensures Moved(s, dst, src, 0) == s
  {
  }

  method Put<T>(a: array<T>, i: nat, x: T)
    requires i < a.Length
    modifies a
    ensures a[..] == old(a[..])[i := x]
  {
    a[i] := x;
  }

  method MoveForward<T>(a: array<T>, dst: nat, src: nat, n: nat)
    requires dst + n <= a.Length && src + n <= a.Length && dst <= src
    modifies a
    ensures a[..] == Moved(old(a[..]), dst, src, n)
  {
    ghost var s := a[..];
    var i := 0;
    MovedNone(s, dst, src);
    while i < n
      invariant i <= n && a[..] == Moved(s, dst, src, i)
    {
      MovedOne(s, dst, src, i);
      Put(a, dst + i, a[src + i]);
      i := i + 1;
    }
  }

  method MoveBackward<T>(a: array<T>, dst: nat, src: nat, n: nat)
    requires dst + n <= a.Length && src + n <= a.Length && src <= dst
    modifies a
    ensures a[..] == Moved(old(a[..]), dst, src, n)
  {
    ghost var s := a[..];
    var to, from: nat, k := dst + n, src + n, 0;
    MovedNone(s, to, from);
    while to > dst
      invariant dst <= to && from - src == to - dst && k == dst + n - to
      invariant a[..] == Moved(s, to, from, k)
    {
      MoveLast(a, to, from, k, s);
      to, from, k := to - 1, from - 1, k + 1;
    }
    assert to == dst && from == src && k == n;
  }

  method MoveLast<T>(a: array<T>, to: nat, from: nat, ghost k: nat, ghost s: seq<T>)
    requires 0 < from <= to && to + k <= |s| == a.Length && a[..] == Moved(s, to, from, k)
    modifies a
    ensures a[..] == Moved(s, to - 1, from - 1, k + 1)
  {
    MovedOneBack(s, to, from, k);
    Put(a, to - 1, a[from - 1]);
  }

  // ---------- 64-bit: records ----------

  lemma RecordAdded(s: seq<Entry>, m: seq<Entry>, k: nat, n: nat, e: Entry)
    requires k <= n < |s|
    requires m == if k != n then Moved(s, k + 1, k, n - k) else s
    ensures m[k := e][..n + 1] == Added(s[..n], k, e)
  {
    var m1, r := m[k := e][..n + 1], Added(s[..n], k, e);
    forall j | 0 <= j < n + 1
      ensures m1[j] == r[j]
    {
      assert k < j ==> r[j] == s[j - 1];
    }
  }

  lemma RecordDropped(s: seq<Entry>, m: seq<Entry>, k: nat, n: nat)
    requires k < n <= |s|
    requires m == if n != 1 then Moved(s, k, k + 1, n - k - 1) else s
    ensures m[..n - 1] == RemoveAt(s[..n], k)
  {
    var r := RemoveAt(s[..n], k);
    forall j | 0 <= j < n - 1
      ensures m[j] == r[j]
    {
      assert k <= j ==> r[j] == s[j + 1];
    }
  }

  class Table64 {
    var count: nat
    const maxCount: nat
    var epoch: nat
    var overflow: nat
    const entries: array<Entry>

    constructor (maxCount: nat, entries: array<Entry>)
      requires maxCount <= entries.Length
      ensures this.maxCount == maxCount && this.entries == entries && count == epoch == overflow == 0
    {
      this.maxCount, this.entries := maxCount, entries;
      count, epoch, overflow := 0, 0, 0;
    }

    /** From Windows 8 on ntdll's own entry is always there. */
    ghost predicate Valid(win8: bool)
      reads this
    {
      (if win8 then 1 else 0) <= count <= maxCount <= entries.Length
    }

    /** The flag is the fourth header field from Windows 8 on, and the third one before. */
    ghost function Contents(win8: bool): Table
      requires Valid(win8)
      reads this, entries
    {
      Table(entries[..count], (if win8 then overflow else epoch) != 0, maxCount, win8)
    }

    /** The search loop of the insertion. */
    method FindSlot(imageBase: nat, win8: bool) returns (index: nat)
      requires Valid(win8)
      ensures index == Slot(entries[..count], if win8 then 1 else 0, imageBase)
    {
      index := if win8 then 1 else 0;
      ghost var s := entries[..count];
      ghost var goal := Slot(s, index, imageBase);
      while index < count
        invariant index <= count && goal == Slot(s, index, imageBase)
      {
        if imageBase < entries[index].imageBase {
          break;
        }
        assert s[index] == entries[index];
        index := index + 1;
      }
    }

    /** Makes room at the index, unless it is the end, and fills in the record. */
    method PutRecord(index: nat, e: Entry)
      requires index <= count < entries.Length
      modifies entries
      ensures entries[..count + 1] == Added(old(entries[..count]), index, e)
    {
      ghost var before := entries[..];
      if index != count {
        RtlMoveMemory(entries, index + 1, index, count - index);
      }
      RecordAdded(before, entries[..], index, count, e);
      ghost var moved := entries[..];
      entries[index] := e;
      assert entries[..] == moved[index := e];
    }

    method RtlpInsertInvertedFunctionTable(e: Entry, win8: bool)
      requires Valid(win8)
      modifies this, entries
      ensures Valid(win8) && Contents(win8) == Insert(old(Contents(win8)), e)
      ensures count == old(count) + (if old(count) == maxCount then 0 else 1)
      ensures if win8 then epoch == old(epoch) else overflow == old(overflow)
      ensures if old(count) == maxCount then (if win8 then overflow else epoch) != 0
              else overflow == old(overflow) && epoch == old(epoch)
    {
      if count != maxCount {
        var index := FindSlot(e.imageBase, win8);
        PutRecord(index, e);
        count := count + 1;
      } else if win8 {
        overflow := 1;
      } else {
        epoch := 1;
      }
    }

    /** The search loop of the removal; it looks at the pinned slot too. */
    method FindImage(imageBase: nat) returns (index: nat)
      requires count <= entries.Length
      ensures index == Find(entries[..count], 0, imageBase)
    {
      index := 0;
      ghost var s := entries[..count];
      while index < count
        invariant index <= count && Find(s, 0, imageBase) == Find(s, index, imageBase)
      {
        if imageBase == entries[index].imageBase {
          break;
        }
        assert s[index] == entries[index];
        index := index + 1;
      }
    }

    method TakeRecord(index: nat)
      requires index < count <= entries.Length
      modifies this`count, entries
      ensures count == old(count) - 1
      ensures entries[..count] == RemoveAt(old(entries[..count]), index)
    {
      ghost var before := entries[..];
      if count != 1 {
        RtlMoveMemory(entries, index, index + 1, count - index - 1);
      }
      RecordDropped(before, entries[..], index, count);
      count := count - 1;
    }

    method RtlpRemoveInvertedFunctionTable(imageBase: nat, win8: bool)
      requires Valid(win8) && (win8 ==> entries[0].imageBase != imageBase)
      modifies this, entries
      ensures Valid(win8) && Contents(win8) == Remove(old(Contents(win8)), imageBase)
      ensures if win8 then epoch == old(epoch) else overflow == old(overflow)
      ensures if count == maxCount then overflow == old(overflow) && epoch == old(epoch)
              else (if win8 then overflow else epoch) == 0
    {
      var index := FindImage(imageBase);
      if index != count {
        TakeRecord(index);
      }
      if count != maxCount {
        if win8 {
          overflow := 0;
        } else {
          epoch := 0;
        }
      }
    }
  }

  /** The public insertion: the table may be missing, and the pages may refuse either protection. */
  method RtlInsertInvertedFunctionTable(table: Table64?, e: Entry, win8: bool, protect: Protect)
    returns (status: NtStatus)
    requires table != null ==> table.Valid(win8)
    modifies if table == null then {} else {table, table.entries}
    ensures table == null ==> status == NotSupported
    ensures table != null ==>
              && table.Valid(win8)
              && table.Contents(win8) == After(old(table.Contents(win8)), InsertCall(e, protect))
              && status == InsertStatus(old(table.Contents(win8)), InsertCall(e, protect))
    ensures table != null && (protect.Asked? ==> protect.open == Success && protect.close == Success) ==>
              var full := old(table.count) == table.maxCount;
              && table.count == old(table.count) + (if full then 0 else 1)
              && (win8 ==> table.epoch == old(table.epoch)
                           && (if full then table.overflow != 0 else table.overflow == old(table.overflow))
                           && status == if table.overflow != 0 then NoMemory else Success)
              && (!win8 ==> table.overflow == old(table.overflow)
                            && (if full then table.epoch != 0 else table.epoch == old(table.epoch))
                            && status == if table.epoch != 0 then NoMemory else Success)
  {
    if table == null {
      return NotSupported;
    }
    if protect.Asked? && !protect.open.Success? {
      return protect.open;
    }
    table.RtlpInsertInvertedFunctionTable(e, win8);
    if protect.Asked? && !protect.close.Success? {
      return protect.close;
    }
    status := if (if win8 then table.overflow else table.epoch) != 0 then NoMemory else Success;
  }

  method RtlRemoveInvertedFunctionTable(table: Table64, imageBase: nat, win8: bool, protect: Protect)
    returns (status: NtStatus)
    requires table.Valid(win8) && SparesPinned(table.Contents(win8), RemoveCall(imageBase, protect))
    modifies table, table.entries
    ensures table.Valid(win8)
    ensures table.Contents(win8) == After(old(table.Contents(win8)), RemoveCall(imageBase, protect))
    ensures status == if !Opens(protect) then protect.open else if !Closes(protect) then protect.close else Success
  {
    if protect.Asked? && !protect.open.Success? {
      return protect.open;
    }
    table.RtlpRemoveInvertedFunctionTable(imageBase, win8);
    if protect.Asked? && !protect.close.Success? {
      return protect.close;
    }
    status := Success;
  }

  // ---------- 32-bit: words ----------

  /** Where the list starts: from Windows 8 on after four header words, before that after three. */
  function First32(win8: bool): nat {
    if win8 then 4 else 3
  }

  /** The list as the plain layout has it, read from word o on. */
  function Plain(w: seq<nat>, o: nat, n: nat): (s: seq<Entry>)
    requires o + 4 * n <= |w|
    ensures |s| == n
  {
    seq(n, i requires 0 <= i < n => Entry(w[o + 4 * i], w[o + 4 * i + 1], w[o + 4 * i + 2], w[o + 4 * i + 3]))
  }

  /** w with the four words of an entry at d. */
  function WithEntry(w: seq<nat>, d: nat, e: Entry): (m: seq<nat>)
    requires d + 4 <= |w|
    ensures |m| == |w|
  {
    w[d := e.directory][d + 1 := e.imageBase][d + 2 := e.imageSize][d + 3 := e.directorySize]
  }

  /** Moving the records from k on up by one and filling in record k is insertion into the list. */
  lemma PlainAdded(w: seq<nat>, o: nat, k: nat, n: nat, e: Entry)
    requires k <= n && o + 4 * (n + 1) <= |w|
    ensures Plain(WithEntry(Moved(w, o + 4 * k + 4, o + 4 * k, 4 * (n - k)), o + 4 * k, e), o, n + 1)
            == Added(Plain(w, o, n), k, e)
  {
    var m := WithEntry(Moved(w, o + 4 * k + 4, o + 4 * k, 4 * (n - k)), o + 4 * k, e);
    var s, r := Plain(m, o, n + 1), Added(Plain(w, o, n), k, e);
    forall i | 0 <= i < n + 1
      ensures s[i] == r[i]
    {
      if i > k {
        assert r[i] == Plain(w, o, n)[i - 1];
        assert m[o + 4 * i] == w[o + 4 * (i - 1)];
      }
    }
  }

  /** Moving records down onto record k is deletion, whatever is moved past the end of the list. */
  lemma PlainDropped(w: seq<nat>, o: nat, k: nat, n: nat, len: nat)
    requires k < n && o + 4 * k + 4 + len <= |w| && 4 * (n - k - 1) <= len && o + 4 * n <= |w|
    ensures Plain(Moved(w, o + 4 * k, o + 4 * k + 4, len), o, n - 1) == RemoveAt(Plain(w, o, n), k)
  {
    var m := Moved(w, o + 4 * k, o + 4 * k + 4, len);
    var s, r := Plain(m, o, n - 1), RemoveAt(Plain(w, o, n), k);
    forall i | 0 <= i < n - 1
      ensures s[i] == r[i]
    {
      if i >= k {
        assert r[i] == Plain(w, o, n)[i + 1];
        assert m[o + 4 * i] == w[o + 4 * (i + 1)];
      }
    }
  }

  /** Header word 0 is the count and word 1 the maximum; the flag is word 3 from Windows 8 on, and
      word 2 before. The removal reads one record past the list, so there is one to spare. */
  ghost predicate Laid(w: seq<nat>, win8: bool) {
    && |w| >= 4
    && (if win8 then 1 else 0) <= w[0] <= w[1]
    && 8 + 4 * w[1] <= |w|
  }

  function Flag(win8: bool): nat {
    if win8 then 3 else 2
  }

  ghost function TableIn(w: seq<nat>, win8: bool): Table
    requires Laid(w, win8)
  {
    Table(Plain(w, First32(win8), w[0]), w[Flag(win8)] != 0, w[1], win8)
  }

  /** The words after record k was moved up, unless it is the end. */
  function Opened(w: seq<nat>, o: nat, k: nat, n: nat): (m: seq<nat>)
    requires k <= n && o + 4 * n + 4 <= |w|
    ensures |m| == |w|
  {
    if k != n then Moved(w, o + 4 * k + 4, o + 4 * k, 4 * (n - k)) else w
  }

  /** The words after the records above k were moved down onto it, and one more. */
  function Closed(w: seq<nat>, o: nat, k: nat, n: nat): (m: seq<nat>)
    requires k < n && o + 4 * n + 4 <= |w|
    ensures |m| == |w|
  {
    if n != 1 then Moved(w, o + 4 * k, o + 4 * k + 4, 4 * (n - k)) else w
  }

  lemma PlainSame(w: seq<nat>, m: seq<nat>, o: nat, n: nat)
    requires o + 4 * n <= |w| == |m| && forall j :: o <= j < |w| ==> w[j] == m[j]
    ensures Plain(w, o, n) == Plain(m, o, n)
  {
  }

  lemma OpenedAdds(w: seq<nat>, o: nat, k: nat, n: nat, e: Entry)
    requires k <= n && o + 4 * n + 4 <= |w|
    ensures Plain(WithEntry(Opened(w, o, k, n), o + 4 * k, e), o, n + 1) == Added(Plain(w, o, n), k, e)
  {
    PlainAdded(w, o, k, n, e);
    MovedNone(w, o + 4 * n + 4, o + 4 * n);
  }

  lemma WordsInserted(w: seq<nat>, m: seq<nat>, k: nat, e: Entry, win8: bool)
    requires Laid(w, win8) && k <= w[0] < w[1]
    requires m == WithEntry(Opened(w, First32(win8), k, w[0]), First32(win8) + 4 * k, e)
    ensures m[0] == w[0] && Laid(m[0 := w[0] + 1], win8)
    ensures TableIn(m[0 := w[0] + 1], win8)
            == TableIn(w, win8).(entries := Added(Plain(w, First32(win8), w[0]), k, e))
  {
    OpenedAdds(w, First32(win8), k, w[0], e);
    HeaderKept(w, m, k, e, win8);
    PlainSame(m, m[0 := w[0] + 1], First32(win8), w[0] + 1);
  }

  lemma HeaderKept(w: seq<nat>, m: seq<nat>, k: nat, e: Entry, win8: bool)
    requires Laid(w, win8) && k <= w[0] < w[1]
    requires m == WithEntry(Opened(w, First32(win8), k, w[0]), First32(win8) + 4 * k, e)
    ensures m[0] == w[0] && m[1] == w[1] && m[Flag(win8)] == w[Flag(win8)]
  {
  }

  lemma WordsRemoved(w: seq<nat>, m: seq<nat>, k: nat, win8: bool)
    requires Laid(w, win8) && k < w[0] && (win8 ==> k != 0)
    requires m == Closed(w, First32(win8), k, w[0])
    ensures m[0] == w[0] && Laid(m[0 := w[0] - 1], win8)
    ensures TableIn(m[0 := w[0] - 1], win8)
            == TableIn(w, win8).(entries := RemoveAt(Plain(w, First32(win8), w[0]), k))
  {
    var o, n := First32(win8), w[0];
    if n != 1 {
      PlainDropped(w, o, k, n, 4 * (n - k));
    }
    PlainSame(m, m[0 := n - 1], o, n - 1);
  }

  /** Word numbers in the shifted record that the code declares: Entries[i] and its fields. */
  function At(i: nat): nat {
    4 + 4 * i
  }

  const IMAGE_BASE: nat := 0
  const IMAGE_SIZE: nat := 1
  const HANDLER_COUNT: nat := 2
  const NEXT_ENCODED: nat := 3

  class Table32 {
    const words: array<nat>

    constructor (words: array<nat>)
      ensures this.words == words
    {
      this.words := words;
    }

    ghost predicate Valid(win8: bool)
      reads words
    {
      Laid(words[..], win8)
    }

    ghost function Contents(win8: bool): Table
      requires Valid(win8)
      reads words
    {
      TableIn(words[..], win8)
    }

    /** The image base of Entries[i], read through the record of the Windows version. */
    function ImageBase(i: nat, win8: bool): nat
      requires At(i) + 4 <= words.Length
      reads words
    {
      if win8 then words[At(i) + 1] else words[At(i) + IMAGE_BASE]
    }

    method FindSlot(imageBase: nat, win8: bool) returns (index: nat)
      requires Valid(win8)
      ensures index == Slot(Plain(words[..], First32(win8), words[0]), if win8 then 1 else 0, imageBase)
    {
      index := if win8 then 1 else 0;
      ghost var s := Plain(words[..], First32(win8), words[0]);
      ghost var goal := Slot(s, index, imageBase);
      while index < words[0]
        invariant index <= words[0] && goal == Slot(s, index, imageBase)
      {
        if imageBase < ImageBase(index, win8) {
          break;
        }
        assert s[index].imageBase == ImageBase(index, win8);
        index := index + 1;
      }
    }

    method FindImage(imageBase: nat, win8: bool) returns (index: nat)
      requires Valid(win8)
      ensures index == Find(Plain(words[..], First32(win8), words[0]), 0, imageBase)
    {
      index := 0;
      ghost var s := Plain(words[..], First32(win8), words[0]);
      while index < words[0]
        invariant index <= words[0] && Find(s, 0, imageBase) == Find(s, index, imageBase)
      {
        if imageBase == ImageBase(index, win8) {
          break;
        }
        assert s[index].imageBase == ImageBase(index, win8);
        index := index + 1;
      }
    }

    /** The block move of the insertion, in either layout. */
    method MoveUp(index: nat, win8: bool)
      requires Valid(win8) && index < words[0] < words[1]
      modifies words
      ensures words[..] == Moved(old(words[..]), First32(win8) + 4 * index + 4, First32(win8) + 4 * index,
                                 4 * (old(words[0]) - index))
    {
      ghost var w := words[..];
      var n := 4 * (words[0] - index);
      var from := if win8 then At(index) else if index != 0 then At(index - 1) + NEXT_ENCODED else 3;
      var to := if win8 then At(index + 1) else At(index) + NEXT_ENCODED;
      RtlMoveMemory(words, to, from, n);
      SameMove(w, to, from, First32(win8) + 4 * index + 4, First32(win8) + 4 * index, n);
    }

    /** The block move of the removal, in either layout: one record more than is left. */
    method MoveDown(index: nat, win8: bool)
      requires Valid(win8) && index < words[0]
      modifies words
      ensures words[..] == Moved(old(words[..]), First32(win8) + 4 * index, First32(win8) + 4 * index + 4,
                                 4 * (old(words[0]) - index))
    {
      ghost var w := words[..];
      var n := 4 * (words[0] - index);
      var to := if win8 then At(index) else if index != 0 then At(index - 1) + NEXT_ENCODED else 3;
      var from := if win8 then At(index + 1) else At(index) + NEXT_ENCODED;
      RtlMoveMemory(words, to, from, n);
      SameMove(w, to, from, First32(win8) + 4 * index, First32(win8) + 4 * index + 4, n);
    }

    /** The field assignments of the insertion, in either layout. */
    method Fill(index: nat, e: Entry, win8: bool)
      requires At(index) + 4 <= words.Length
      modifies words
      ensures words[..] == WithEntry(old(words[..]), First32(win8) + 4 * index, e)
    {
      if win8 {
        words[At(index)] := e.directory;
        words[At(index) + 3] := e.directorySize;
        words[At(index) + 1] := e.imageBase;
        words[At(index) + 2] := e.imageSize;
      } else {
        if index != 0 {
          words[At(index - 1) + NEXT_ENCODED] := e.directory;
        } else {
          words[3] := e.directory;
        }
        words[At(index) + IMAGE_BASE] := e.imageBase;
        words[At(index) + IMAGE_SIZE] := e.imageSize;
        words[At(index) + HANDLER_COUNT] := e.directorySize;
      }
    }

    method SetCount(n: nat)
      requires words.Length >= 4
      modifies words
      ensures words[..] == old(words[..])[0 := n]
    {
      words[0] := n;
    }

    method SetFlag(value: nat, win8: bool)
      requires Valid(win8)
      modifies words
      ensures Valid(win8) && Contents(win8) == old(Contents(win8)).(overflow := value != 0)
    {
      ghost var w := words[..];
      words[Flag(win8)] := value;
      PlainSame(w, words[..], First32(win8), w[0]);
    }

    method PutRecord(index: nat, e: Entry, win8: bool)
      requires Valid(win8) && index <= words[0] < words[1]
      modifies words
      ensures Valid(win8)
      ensures Contents(win8) == old(Contents(win8)).(entries := Added(old(Contents(win8)).entries, index, e))
    {
      ghost var before := words[..];
      if index != words[0] {
        MoveUp(index, win8);
      }
      Fill(index, e, win8);
      WordsInserted(before, words[..], index, e, win8);
      SetCount(words[0] + 1);
    }

    method TakeRecord(index: nat, win8: bool)
      requires Valid(win8) && index < words[0] && (win8 ==> index != 0)
      modifies words
      ensures Valid(win8)
      ensures Contents(win8) == old(Contents(win8)).(entries := RemoveAt(old(Contents(win8)).entries, index))
    {
      WordsRemoved(words[..], Closed(words[..], First32(win8), index, words[0]), index, win8);
      CloseUp(index, win8);
      SetCount(words[0] - 1);
    }

    /** The last record needs no move when it is the only one. */
    method CloseUp(index: nat, win8: bool)
      requires Valid(win8) && index < words[0]
      modifies words
      ensures words[..] == Closed(old(words[..]), First32(win8), index, old(words[0]))
    {
      if words[0] != 1 {
        MoveDown(index, win8);
      }
    }

    method RtlpInsertInvertedFunctionTable(e: Entry, win8: bool)
      requires Valid(win8)
      modifies words
      ensures Valid(win8) && Contents(win8) == Insert(old(Contents(win8)), e)
    {
      if words[0] == words[1] {
        SetFlag(1, win8);
        return;
      }
      var index := FindSlot(e.imageBase, win8);
      PutRecord(index, e, win8);
    }

    method RtlpRemoveInvertedFunctionTable(imageBase: nat, win8: bool)
      requires Valid(win8) && SparesPinned(Contents(win8), RemoveCall(imageBase, NotNeeded))
      modifies words
      ensures Valid(win8) && Contents(win8) == Remove(old(Contents(win8)), imageBase)
    {
      var index := FindImage(imageBase, win8);
      if index != words[0] {
        TakeRecord(index, win8);
      }
      if words[0] != words[1] {
        SetFlag(0, win8);
      }
    }
  }

  /** The public insertion on 32-bit builds, in either layout. */
  method RtlInsertInvertedFunctionTable32(table: Table32?, e: Entry, win8: bool, protect: Protect)
    returns (status: NtStatus)
    requires table != null ==> table.Valid(win8)
    modifies if table == null then {} else {table.words}
    ensures table == null ==> status == NotSupported
    ensures table != null ==>
              && table.Valid(win8)
              && table.Contents(win8) == After(old(table.Contents(win8)), InsertCall(e, protect))
              && status == InsertStatus(old(table.Contents(win8)), InsertCall(e, protect))
  {
    if table == null {
      return NotSupported;
    }
    if protect.Asked? && !protect.open.Success? {
      return protect.open;
    }
    table.RtlpInsertInvertedFunctionTable(e, win8);
    if protect.Asked? && !protect.close.Success? {
      return protect.close;
    }
    status := if table.words[Flag(win8)] != 0 then NoMemory else Success;
  }

  method RtlRemoveInvertedFunctionTable32(table: Table32, imageBase: nat, win8: bool, protect: Protect)
    returns (status: NtStatus)
    requires table.Valid(win8) && SparesPinned(table.Contents(win8), RemoveCall(imageBase, NotNeeded))
    modifies table.words
    ensures table.Valid(win8)
    ensures table.Contents(win8) == After(old(table.Contents(win8)), RemoveCall(imageBase, protect))
    ensures status == if !Opens(protect) then protect.open else if !Closes(protect) then protect.close else Success
  {
    if protect.Asked? && !protect.open.Success? {
      return protect.open;
    }
    table.RtlpRemoveInvertedFunctionTable(imageBase, win8);
    if protect.Asked? && !protect.close.Success? {
      return protect.close;
    }
    status := Success;
  }
}
