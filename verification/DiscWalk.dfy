/**
 Walking the preorder table with the extractor's directory stack
 (switch/src/nod/gc_disc.c, switch/src/game_data/disc_extractor.cpp), against the
 directory tree it came from.
 */
module DiscWalk {
  import opened Sequences
  import opened DiscTable

  const SLASH: byte := 47

  /** A directory being walked: its path and the table index where its subtree ends. */
  datatype Frame = Frame(path: Name, end: nat)

  /** The frame pushed before the walk; its end lies beyond every table the parser accepts. */
  const BASE := Frame([], 0xFFFF_FFFF)

  datatype Item =
    | DirItem(path: Name)
    | FileItem(path: Name, offset: nat, length: nat)

  function Join(dir: Name, name: Name): Name { if dir == [] then name else dir + [SLASH] + name }

  // ---------- specification: the tree itself ----------

  /** Every entry below `dir`, parents first, each under its true path. */
  function Items(t: Tree, dir: Name): seq<Item> {
    match t
    case End => []
    case File(name, offset, length, next) => [FileItem(Join(dir, name), offset, length)] + Items(next, dir)
    case Folder(name, inside, next) =>
      [DirItem(Join(dir, name))] + Items(inside, Join(dir, name)) + Items(next, dir)
  }

  // ---------- the walk ----------

  /** The stack's bottom frame outlives every index, so it is never popped. */
  predicate Grounded(stack: seq<Frame>, limit: nat) { |stack| > 0 && limit <= stack[0].end }

  function PopTo(stack: seq<Frame>, index: nat): (r: seq<Frame>)
    requires Grounded(stack, index + 1)
    ensures Grounded(r, index + 1) && index < r[|r| - 1].end && r <= stack
  {
    if index >= stack[|stack| - 1].end then PopTo(stack[..|stack| - 1], index) else stack
  }

  /** What the callback sees from index `i` on, one call per entry. */
  function WalkFrom(table: seq<Entry>, i: nat, stack: seq<Frame>): seq<Item>
    requires i <= |table| && Grounded(stack, |table|)
    decreases |table| - i
  {
    if i == |table| then []
    else
      var s := PopTo(stack, i);
      var path := Join(s[|s| - 1].path, table[i].name);
      match table[i]
      case FileEntry(_, offset, length) => [FileItem(path, offset, length)] + WalkFrom(table, i + 1, s)
      case DirEntry(_, _, end) => [DirItem(path)] + WalkFrom(table, i + 1, s + [Frame(path, end)])
  }

  predicate Shows(item: Item, entry: Entry) {
    match entry
    case FileEntry(_, offset, length) => item.FileItem? && item.offset == offset && item.length == length
    case DirEntry(_, _, _) => item.DirItem?
  }

  /** Each entry is visited exactly once, in table order, whatever the table says. */
  lemma {:induction false} WalkVisitsEachOnce(table: seq<Entry>, i: nat, stack: seq<Frame>, k: nat)
    requires i <= k <= |table| && Grounded(stack, |table|)
    ensures |WalkFrom(table, i, stack)| == |table| - i
    ensures k < |table| ==> Shows(WalkFrom(table, i, stack)[k - i], table[k])
    decreases |table| - i
  {
    hide WalkFrom, Shows, Grounded;
    if i == |table| {
      WalkAtEnd(table, stack);
    } else {
      var first := WalkUnfolds(table, i, stack);
      WalkVisitsEachOnce(table, i + 1, first.1, if k == i then k + 1 else k);
    }
  }

  /** One callback, and the stack it leaves. */
  lemma WalkUnfolds(table: seq<Entry>, i: nat, stack: seq<Frame>) returns (r: (Item, seq<Frame>))
    requires i < |table| && Grounded(stack, |table|)
    ensures Grounded(r.1, |table|) && Shows(r.0, table[i])
    ensures WalkFrom(table, i, stack) == [r.0] + WalkFrom(table, i + 1, r.1)
  {
    var s := PopTo(stack, i);
    var path := Join(s[|s| - 1].path, table[i].name);
    match table[i]
    case FileEntry(_, offset, length) => r := (FileItem(path, offset, length), s);
    case DirEntry(_, _, end) => r := (DirItem(path), s + [Frame(path, end)]);
  }

  // ---------- the walk follows the tree ----------

  /** A frame whose subtree is over plays no further part. */
  lemma SpentFrame(table: seq<Entry>, i: nat, stack: seq<Frame>, f: Frame)
    requires i <= |table| && Grounded(stack, |table|) && f.end <= i
    ensures WalkFrom(table, i, stack + [f]) == WalkFrom(table, i, stack)
  {
    assert (stack + [f])[..|stack|] == stack;
    if i < |table| {
      assert PopTo(stack + [f], i) == PopTo(stack, i);
    }
  }

  lemma TableParts(table: seq<Entry>, base: nat, a: seq<Entry>, b: seq<Entry>)
    requires base + |a| + |b| <= |table| && table[base..base + |a| + |b|] == a + b
    ensures table[base..base + |a|] == a
    ensures table[base + |a|..base + |a| + |b|] == b
  {
    var whole := table[base..base + |a| + |b|];
    assert table[base..base + |a|] == whole[..|a|];
    assert table[base + |a|..base + |a| + |b|] == whole[|a|..];
  }

  lemma WalkFileStep(table: seq<Entry>, base: nat, stack: seq<Frame>)
    requires Grounded(stack, |table|) && base < |table| && base < stack[|stack| - 1].end
    requires table[base].FileEntry?
    ensures var e, dir := table[base], stack[|stack| - 1].path;
            WalkFrom(table, base, stack)
            == [FileItem(Join(dir, e.name), e.offset, e.length)] + WalkFrom(table, base + 1, stack)
  {
    hide Join;
  }

  lemma WalkDirStep(table: seq<Entry>, base: nat, stack: seq<Frame>)
    requires Grounded(stack, |table|) && base < |table| && base < stack[|stack| - 1].end
    requires table[base].DirEntry?
    ensures var e, path := table[base], Join(stack[|stack| - 1].path, table[base].name);
            WalkFrom(table, base, stack)
            == [DirItem(path)] + WalkFrom(table, base + 1, stack + [Frame(path, e.end)])
  {
    hide Join;
    assert PopTo(stack, base) == stack;
    hide PopTo;
  }

  /** From the start of a directory's contents, with that directory on top of the stack,
      the walk lists exactly those contents and then goes on with the same stack. */
  lemma {:induction false} WalkFollowsTree(table: seq<Entry>, t: Tree, base: nat, parent: nat, stack: seq<Frame>)
    requires Grounded(stack, |table|) && base + Count(t) <= |table|
    requires table[base..base + Count(t)] == Table(t, base, parent)
    requires base + Count(t) <= stack[|stack| - 1].end
    ensures WalkFrom(table, base, stack)
            == Items(t, stack[|stack| - 1].path) + WalkFrom(table, base + Count(t), stack)
    decreases t
  {
    hide WalkFrom, PopTo, Table, Join;
    var dir := stack[|stack| - 1].path;
    match t
    case End =>
    case File(name, offset, length, next) =>
      FileStep(table, t, base, parent);
      WalkFileStep(table, base, stack);
      WalkFollowsTree(table, next, base + 1, parent, stack);
    case Folder(name, inside, next) =>
      FolderStep(table, t, base, parent);
      var end := base + 1 + Count(inside);
      var frame := Frame(Join(dir, name), end);
      WalkDirStep(table, base, stack);
      WalkFollowsTree(table, inside, base + 1, base, stack + [frame]);
      SpentFrame(table, end, stack, frame);
      WalkFollowsTree(table, next, end, parent, stack);
      Regroup([DirItem(frame.path)], Items(inside, frame.path), Items(next, dir),
              WalkFrom(table, base + Count(t), stack));
  }

  lemma Regroup(a: seq<Item>, b: seq<Item>, c: seq<Item>, rest: seq<Item>)
    ensures a + (b + (c + rest)) == (a + b + c) + rest
  {
  }

  lemma FileStep(table: seq<Entry>, t: Tree, base: nat, parent: nat)
    requires t.File? && base + Count(t) <= |table|
    requires table[base..base + Count(t)] == Table(t, base, parent)
    ensures table[base] == FileEntry(t.name, t.offset, t.length)
    ensures table[base + 1..base + Count(t)] == Table(t.next, base + 1, parent)
  {
    hide PopTo, WalkFrom;
    TableParts(table, base, [FileEntry(t.name, t.offset, t.length)], Table(t.next, base + 1, parent));
    assert table[base] == table[base..base + 1][0];
  }

  lemma FolderTable(t: Tree, base: nat, parent: nat)
    requires t.Folder?
    ensures var end := base + 1 + Count(t.inside);
            var inside, next := Table(t.inside, base + 1, base), Table(t.next, end, parent);
            && Table(t, base, parent) == [DirEntry(t.name, parent, end)] + (inside + next)
            && |inside| == Count(t.inside) && |next| == Count(t.next)
            && Count(t) == 1 + Count(t.inside) + Count(t.next)
  {
  }

  lemma FolderStep(table: seq<Entry>, t: Tree, base: nat, parent: nat)
    requires t.Folder? && base + Count(t) <= |table|
    requires table[base..base + Count(t)] == Table(t, base, parent)
    ensures var end := base + 1 + Count(t.inside);
            && table[base] == DirEntry(t.name, parent, end)
            && table[base + 1..end] == Table(t.inside, base + 1, base)
            && table[end..end + Count(t.next)] == Table(t.next, end, parent)
  {
    hide Table, Count;
    var end := base + 1 + Count(t.inside);
    var head := [DirEntry(t.name, parent, end)];
    var inside, next := Table(t.inside, base + 1, base), Table(t.next, end, parent);
    FolderTable(t, base, parent);
    TableParts(table, base, head, inside + next);
    TableParts(table, base + 1, inside, next);
    assert table[base] == table[base..base + 1][0];
  }

  /** Walking the table of a tree from the disc root lists the tree. */
  lemma WalkOfTable(t: Tree)
    requires 1 + Count(t) <= MAX_ENTRIES
    ensures WalkFrom(FullTable(t), 1, [BASE]) == Items(t, [])
  {
    hide WalkFrom, Items, Table, PopTo;
    assert FullTable(t)[1..1 + Count(t)] == Table(t, 1, 0);
    WalkWhole(FullTable(t), t, [BASE]);
  }

  lemma WalkWhole(table: seq<Entry>, t: Tree, stack: seq<Frame>)
    requires |table| == 1 + Count(t) && table[1..1 + Count(t)] == Table(t, 1, 0) && Grounded(stack, |table|)
    requires |table| <= stack[|stack| - 1].end
    ensures WalkFrom(table, 1, stack) == Items(t, stack[|stack| - 1].path)
  {
    hide WalkFrom, Items, Table, PopTo;
    WalkFollowsTree(table, t, 1, 0, stack);
    WalkAtEnd(table, stack);
  }

  lemma WalkAtEnd(table: seq<Entry>, stack: seq<Frame>)
    requires Grounded(stack, |table|)
    ensures WalkFrom(table, |table|, stack) == []
  {
  }
}
