/**
 The preorder table of a directory tree: when it can be written to a disc, and what its links say.
 */
module DiscTrees {
  import opened Sequences
  import opened Endian
  import opened DiscTable

  // ---------- which trees fit ----------

  /** Names without zero bytes, offsets and lengths of 32 bits. */
  predicate FieldsFit(t: Tree) {
    match t
    case End => true
    case File(name, offset, length, next) =>
      (forall i | 0 <= i < |name| :: name[i] != 0)
      && offset < 0x1_0000_0000 && length < 0x1_0000_0000 && FieldsFit(next)
    case Folder(name, inside, next) =>
      (forall i | 0 <= i < |name| :: name[i] != 0) && FieldsFit(inside) && FieldsFit(next)
  }

  /** The names with a zero byte each. */
  function NameBytes(t: Tree): nat {
    match t
    case End => 0
    case File(name, _, _, next) => |name| + 1 + NameBytes(next)
    case Folder(name, inside, next) => |name| + 1 + NameBytes(inside) + NameBytes(next)
  }

  function NamesLength(es: seq<Entry>): nat {
    if es == [] then 0 else NamesLength(es[..|es| - 1]) + |es[|es| - 1].name| + 1
  }

  lemma {:induction false} NamesConcat(a: seq<Entry>, b: seq<Entry>)
    ensures NamesLength(a + b) == NamesLength(a) + NamesLength(b)
    decreases |b|
  {
    if b == [] {
      assert a + b == a;
    } else {
      var front := b[..|b| - 1];
      NamesConcat(a, front);
      assert (a + b)[..|a + b| - 1] == a + front;
    }
  }

  lemma NamesOne(e: Entry)
    ensures NamesLength([e]) == |e.name| + 1
  {
    assert [e][..0] == [];
  }

  lemma {:induction false} TableNames(t: Tree, base: nat, parent: nat)
    ensures NamesLength(Table(t, base, parent)) == NameBytes(t)
    decreases t
  {
    hide NamesLength;
    match t
    case End =>
      NoNames();
    case File(name, offset, length, next) =>
      var first := FileEntry(name, offset, length);
      NamesOne(first);
      NamesConcat([first], Table(next, base + 1, parent));
      TableNames(next, base + 1, parent);
    case Folder(name, inside, next) =>
      var end := base + 1 + Count(inside);
      var first, within, rest := DirEntry(name, parent, end), Table(inside, base + 1, base), Table(next, end, parent);
      NamesOne(first);
      NamesConcat([first], within);
      NamesConcat([first] + within, rest);
      TableNames(inside, base + 1, base);
      TableNames(next, end, parent);
  }

  lemma NoNames()
    ensures NamesLength([]) == 0
  {
  }

  lemma {:induction false} StringsLength(root: Entry, es: seq<Entry>)
    ensures |Strings([root] + es)| == NamesLength(es)
    decreases |es|
  {
    if es != [] {
      var front, whole := es[..|es| - 1], [root] + es;
      StringsLength(root, front);
      assert whole[..|whole| - 1] == [root] + front;
    }
  }

  ghost predicate AllFit(es: seq<Entry>) { forall k | 0 <= k < |es| :: Encodable(es[k]) }

  lemma {:induction false} TableFits(t: Tree, base: nat, parent: nat)
    requires base + Count(t) < U32 && parent < U32
    ensures AllFit(Table(t, base, parent)) <==> FieldsFit(t)
    decreases t
  {
    hide Encodable, AllFit;
    match t
    case End =>
      NoneFits();
    case File(name, offset, length, next) =>
      var first, rest := FileEntry(name, offset, length), Table(next, base + 1, parent);
      TableFits(next, base + 1, parent);
      FirstFits(first, rest);
    case Folder(name, inside, next) =>
      var end := base + 1 + Count(inside);
      var first, within, rest := DirEntry(name, parent, end), Table(inside, base + 1, base), Table(next, end, parent);
      TableFits(inside, base + 1, base);
      TableFits(next, end, parent);
      FirstFits(first, within);
      BothFit([first] + within, rest);
  }

  lemma NoneFits()
    ensures AllFit([])
  {
  }

  lemma BothFit(a: seq<Entry>, b: seq<Entry>)
    ensures AllFit(a + b) <==> AllFit(a) && AllFit(b)
  {
    hide Encodable;
    if AllFit(a + b) {
      forall k | 0 <= k < |a| ensures Encodable(a[k]) {
        assert (a + b)[k] == a[k];
      }
      forall k | 0 <= k < |b| ensures Encodable(b[k]) {
        assert (a + b)[|a| + k] == b[k];
      }
    }
  }

  lemma FirstFits(e: Entry, es: seq<Entry>)
    ensures AllFit([e] + es) <==>
            && (forall i | 0 <= i < |e.name| :: e.name[i] != 0)
            && (if e.FileEntry? then e.offset < 0x1_0000_0000 && e.length < 0x1_0000_0000
                else e.parent < 0x1_0000_0000 && e.end < 0x1_0000_0000)
            && AllFit(es)
  {
    BothFit([e], es);
    assert AllFit([e]) <==> Encodable(e) by {
      assert [e][0] == e;
      hide Encodable;
    }
    hide AllFit;
  }

  /** A tree's table can be written exactly when, with the root, it has at most 2 to the 20 entries,
      its fields fit and its names take at most 16 MiB. */
  lemma WritableExactlyWhen(t: Tree)
    ensures EncodableTable(FullTable(t)) <==>
            Count(t) < 0x10_0000 && FieldsFit(t) && NameBytes(t) <= 0x100_0000
  {
    hide Encodable, Strings, NamesLength, Table, AllFit, EncodableTable;
    var root, es := DirEntry([], 0, 1 + Count(t)), Table(t, 1, 0);
    assert FullTable(t) == [root] + es;
    StringsLength(root, es);
    TableNames(t, 1, 0);
    if Count(t) < 0x10_0000 {
      TableFits(t, 1, 0);
      FirstFits(root, es);
    }
    RootFits(FullTable(t));
  }

  lemma RootFits(es: seq<Entry>)
    ensures EncodableTable(es) <==>
            1 <= |es| <= 0x10_0000 && es[0] == DirEntry([], 0, |es|) && AllFit(es) && |Strings(es)| <= 0x100_0000
  {
    hide Encodable, Strings;
  }

  // ---------- what the links say ----------

  /** Entry `p` is a directory around entry `i`. */
  predicate Around(es: seq<Entry>, p: nat, i: nat) { p < i < |es| && es[p].DirEntry? && i < es[p].end }

  /** Directory `p` is the innermost one around entry `i`. */
  ghost predicate Innermost(es: seq<Entry>, p: nat, i: nat) {
    Around(es, p, i) && forall q: nat :: Around(es, q, i) ==> q <= p
  }

  /** A piece of a table that stands at `base`, inside directory `parent`: its directories end
      inside it, and each names its innermost directory in the piece, or else `parent`. */
  ghost predicate Linked(es: seq<Entry>, base: nat, parent: nat) {
    forall i | 0 <= i < |es| && es[i].DirEntry? ::
      && base + i < es[i].end <= base + |es|
      && InPiece(es, base, parent, i)
  }

  ghost predicate InPiece(es: seq<Entry>, base: nat, parent: nat, i: nat)
    requires i < |es| && es[i].DirEntry?
  {
    if es[i].parent == parent && parent < base then forall q | 0 <= q < i && es[q].DirEntry? :: es[q].end <= base + i
    else
      var p := es[i].parent - base;
      && 0 <= p < i && es[p].DirEntry? && base + i < es[p].end
      && forall q | p < q < i && es[q].DirEntry? :: es[q].end <= base + i
  }

  lemma {:induction false} TableLinked(t: Tree, base: nat, parent: nat)
    requires parent < base
    ensures Linked(Table(t, base, parent), base, parent)
    decreases t
  {
    hide Linked;
    match t
    case End =>
      NoneLinked(base, parent);
    case File(name, offset, length, next) =>
      TableLinked(next, base + 1, parent);
      LinkFile(FileEntry(name, offset, length), Table(next, base + 1, parent), base, parent);
    case Folder(name, inside, next) =>
      var end := base + 1 + Count(inside);
      TableLinked(inside, base + 1, base);
      TableLinked(next, end, parent);
      LinkFolder(DirEntry(name, parent, end), Table(inside, base + 1, base), Table(next, end, parent), base, parent);
  }

  lemma NoneLinked(base: nat, parent: nat)
    ensures Linked([], base, parent)
  {
  }

  /** What holds in a piece holds in a longer one that ends with it, when what comes before ends
      before it. */
  lemma PieceBehind(es: seq<Entry>, n: nat, rest: seq<Entry>, base: nat, parent: nat, i: nat)
    requires n <= |es| && rest == es[n..] && i < |rest| && rest[i].DirEntry? && parent < base
    requires forall q | 0 <= q < n && es[q].DirEntry? :: es[q].end <= base + n
    requires InPiece(rest, base + n, parent, i)
    ensures InPiece(es, base, parent, n + i)
  {
    assert forall q | n <= q < |es| :: es[q] == rest[q - n];
  }

  /** What holds in a directory's contents holds in a piece that begins with the directory. */
  lemma PieceInside(es: seq<Entry>, inside: seq<Entry>, base: nat, parent: nat, i: nat)
    requires 1 + |inside| <= |es| && inside == es[1..1 + |inside|] && i < |inside| && inside[i].DirEntry?
    requires es[0].DirEntry? && es[0].end == base + 1 + |inside| && parent < base
    requires InPiece(inside, base + 1, base, i) && base + 1 + i < inside[i].end
    ensures InPiece(es, base, parent, 1 + i)
  {
    assert forall q | 1 <= q < 1 + |inside| :: es[q] == inside[q - 1];
  }

  lemma LinkFile(e: Entry, rest: seq<Entry>, base: nat, parent: nat)
    requires e.FileEntry? && parent < base && Linked(rest, base + 1, parent)
    ensures Linked([e] + rest, base, parent)
  {
    var es := [e] + rest;
    hide InPiece;
    forall i | 0 <= i < |es| && es[i].DirEntry?
      ensures base + i < es[i].end <= base + |es| && InPiece(es, base, parent, i)
    {
      assert es[i] == rest[i - 1];
      PieceBehind(es, 1, rest, base, parent, i - 1);
    }
  }

  lemma LinkFolder(e: Entry, inside: seq<Entry>, next: seq<Entry>, base: nat, parent: nat)
    requires parent < base && e.DirEntry? && e.parent == parent && e.end == base + 1 + |inside|
    requires Linked(inside, base + 1, base) && Linked(next, e.end, parent)
    ensures Linked([e] + inside + next, base, parent)
  {
    var es := [e] + inside + next;
    hide InPiece;
    forall i | 0 <= i < |es| && es[i].DirEntry?
      ensures base + i < es[i].end <= base + |es| && InPiece(es, base, parent, i)
    {
      hide Linked;
      LinkOne(e, inside, next, base, parent, i);
    }
  }

  lemma LinkOne(e: Entry, inside: seq<Entry>, next: seq<Entry>, base: nat, parent: nat, i: nat)
    requires parent < base && e.DirEntry? && e.parent == parent && e.end == base + 1 + |inside|
    requires Linked(inside, base + 1, base) && Linked(next, e.end, parent)
    requires i < |[e] + inside + next| && ([e] + inside + next)[i].DirEntry?
    ensures var es := [e] + inside + next; base + i < es[i].end <= base + |es| && InPiece(es, base, parent, i)
  {
    hide InPiece, Linked;
    var es, n := [e] + inside + next, 1 + |inside|;
    if i == 0 {
      FirstInPiece(es, base, parent);
    } else if i < n {
      assert es[i] == inside[i - 1] && es[1..n] == inside;
      LinkedAt(inside, base + 1, base, i - 1);
      PieceInside(es, inside, base, parent, i - 1);
    } else {
      assert es[i] == next[i - n] && es[n..] == next;
      LinkedAt(next, e.end, parent, i - n);
      EndsInside(e, inside, next, base);
      PieceBehind(es, n, next, base, parent, i - n);
    }
  }

  lemma LinkedAt(es: seq<Entry>, base: nat, parent: nat, i: nat)
    requires Linked(es, base, parent) && i < |es| && es[i].DirEntry?
    ensures base + i < es[i].end <= base + |es| && InPiece(es, base, parent, i)
  {
    hide InPiece;
  }

  lemma FirstInPiece(es: seq<Entry>, base: nat, parent: nat)
    requires es != [] && es[0].DirEntry? && es[0].parent == parent < base
    ensures InPiece(es, base, parent, 0)
  {
  }

  lemma EndsInside(e: Entry, inside: seq<Entry>, next: seq<Entry>, base: nat)
    requires e.DirEntry? && e.end == base + 1 + |inside| && Linked(inside, base + 1, base)
    ensures var es, n := [e] + inside + next, 1 + |inside|;
            forall q | 0 <= q < n && es[q].DirEntry? :: es[q].end <= base + n
  {
    hide InPiece;
    var es, n := [e] + inside + next, 1 + |inside|;
    forall q | 0 <= q < n && es[q].DirEntry? ensures es[q].end <= base + n {
      assert q > 0 ==> es[q] == inside[q - 1];
    }
  }

  /** Every directory of a tree's table ends inside the table, after itself, and names the innermost
      directory around it; the root is around everything. */
  lemma LinksAreRight(t: Tree, i: nat)
    requires 0 < i < |FullTable(t)| && FullTable(t)[i].DirEntry?
    ensures var es := FullTable(t);
            && i < es[i].end <= |es| && Innermost(es, es[i].parent, i)
            && es[0] == DirEntry([], 0, |es|)
  {
    var rest := Table(t, 1, 0);
    TableLinked(t, 1, 0);
    hide Table, Linked, InPiece, Innermost;
    LinkedAt(rest, 1, 0, i - 1);
    InnermostIs(DirEntry([], 0, 1 + Count(t)), rest, i);
  }

  lemma InnermostIs(root: Entry, rest: seq<Entry>, i: nat)
    requires root.DirEntry? && root.end == 1 + |rest| && 0 < i <= |rest| && rest[i - 1].DirEntry?
    requires InPiece(rest, 1, 0, i - 1)
    ensures Innermost([root] + rest, rest[i - 1].parent, i)
  {
    var es, p := [root] + rest, rest[i - 1].parent;
    assert es[i] == rest[i - 1];
    assert p > 0 ==> es[p] == rest[p - 1];
    forall q: nat | Around(es, q, i) ensures q <= p {
      if 1 <= q {
        assert es[q] == rest[q - 1];
      }
    }
  }
}
