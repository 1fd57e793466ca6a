/**
 Discs whose names are proper: one segment each, no two of one directory the same to the card.
 On such a disc every entry has a place of its own, and a file's temporary meets another file
 only when a sibling is called like that.
 */
module DiscNames {
  import opened DiscTable
  import opened DiscWalk
  import opened CardPaths

  /** The names of a directory's entries, as the card compares them. */
  function Names(t: Tree): seq<Name> {
    match t
    case End => []
    case File(name, _, _, next) => [Fold(name)] + Names(next)
    case Folder(name, _, next) => [Fold(name)] + Names(next)
  }

  predicate ProperNames(t: Tree) {
    match t
    case End => true
    case File(name, _, _, next) => ProperName(name) && Fold(name) !in Names(next) && ProperNames(next)
    case Folder(name, inside, next) =>
      ProperName(name) && Fold(name) !in Names(next) && ProperNames(inside) && ProperNames(next)
  }

  /** Some later file of the directory has this name without ".part". */
  predicate LaterHasPart(folded: Name, t: Tree) {
    match t
    case End => false
    case File(name, _, _, next) => Fold(name) + PART == folded || LaterHasPart(folded, next)
    case Folder(_, _, next) => LaterHasPart(folded, next)
  }

  /** Entry `k`, in preorder, is a file that a later sibling's temporary is going to replace. */
  predicate Lost(t: Tree, k: nat)
    requires k < Count(t)
  {
    match t
    case File(name, _, _, next) => if k == 0 then LaterHasPart(Fold(name), next) else Lost(next, k - 1)
    case Folder(_, inside, next) =>
      if k == 0 then false
      else if k - 1 < Count(inside) then Lost(inside, k - 1)
      else Lost(next, k - 1 - Count(inside))
  }

  /** Entry `k` of the tree in preorder. */
  function ItemAt(t: Tree, dir: Name, k: nat): Item
    requires k < Count(t)
  {
    match t
    case File(name, offset, length, next) =>
      if k == 0 then FileItem(Join(dir, name), offset, length) else ItemAt(next, dir, k - 1)
    case Folder(name, inside, next) =>
      if k == 0 then DirItem(Join(dir, name))
      else if k - 1 < Count(inside) then ItemAt(inside, Join(dir, name), k - 1)
      else ItemAt(next, dir, k - 1 - Count(inside))
  }

  lemma {:induction false} ItemsAre(t: Tree, dir: Name)
    ensures |Items(t, dir)| == Count(t)
    ensures forall k | 0 <= k < Count(t) :: Items(t, dir)[k] == ItemAt(t, dir, k)
    decreases t
  {
    match t
    case End =>
    case File(name, offset, length, next) =>
      ItemsAre(next, dir);
    case Folder(name, inside, next) =>
      ItemsAre(inside, Join(dir, name));
      ItemsAre(next, dir);
      hide Join;
  }

  /** The entry of the directory that is, or contains, entry `k`. */
  function HeadOf(t: Tree, k: nat): (n: Name)
    requires k < Count(t)
    ensures n in Names(t)
  {
    match t
    case File(name, _, _, next) => if k == 0 then Fold(name) else HeadOf(next, k - 1)
    case Folder(name, inside, next) =>
      if k <= Count(inside) then Fold(name) else HeadOf(next, k - 1 - Count(inside))
  }

  predicate Direct(t: Tree, k: nat)
    requires k < Count(t)
  {
    match t
    case File(_, _, _, next) => k == 0 || Direct(next, k - 1)
    case Folder(_, inside, next) => k == 0 || (k > Count(inside) && Direct(next, k - 1 - Count(inside)))
  }

  /** The place lies in directory `d`, in or at its entry `n`. */
  ghost predicate Within(q: Place, d: Place, n: Name) {
    && q.absolute == d.absolute && q.up == d.up
    && |d.parts| < |q.parts| && q.parts[..|d.parts|] == d.parts && q.parts[|d.parts|] == n
  }

  /** A proper name leads to a place of its own below its directory. */
  lemma ProperJoin(dir: Name, n: Name)
    requires ProperName(n)
    ensures At(Join(dir, n)) == At(dir).(parts := At(dir).parts + [Fold(n)])
  {
    AtJoin(dir, n);
    hide At;
  }

  lemma ProperPart(dir: Name, n: Name)
    requires ProperName(n)
    ensures At(Join(dir, n) + PART) == At(dir).(parts := At(dir).parts + [Fold(n) + PART])
  {
    assert SLASH !in PART;
    assert Join(dir, n) + PART == Join(dir, n + PART);
    FoldPart(n);
    ProperJoin(dir, n + PART);
    hide At;
  }

  /** Entry `k` lies in its directory's entry: right there if it is one itself, below otherwise. */
  lemma {:induction false} ItemWithin(t: Tree, dir: Name, k: nat)
    requires k < Count(t) && ProperNames(t)
    ensures Within(At(ItemAt(t, dir, k).path), At(dir), HeadOf(t, k))
    ensures Direct(t, k) <==> |At(ItemAt(t, dir, k).path).parts| == |At(dir).parts| + 1
    decreases t
  {
    hide At, Join;
    match t
    case File(name, _, _, next) =>
      ProperJoin(dir, name);
      if k > 0 {
        ItemWithin(next, dir, k - 1);
      }
    case Folder(name, inside, next) =>
      ProperJoin(dir, name);
      if 0 < k <= Count(inside) {
        ItemWithin(inside, Join(dir, name), k - 1);
        Deeper(At(ItemAt(t, dir, k).path), At(dir), Fold(name), HeadOf(inside, k - 1));
      } else if k > Count(inside) {
        ItemWithin(next, dir, k - 1 - Count(inside));
      }
  }

  /** What lies below an entry of the directory lies in that entry. */
  lemma Deeper(q: Place, d: Place, n: Name, m: Name)
    requires Within(q, d.(parts := d.parts + [n]), m)
    ensures Within(q, d, n) && |q.parts| > |d.parts| + 1
  {
    var e := d.parts + [n];
    assert q.parts[..|e|] == e;
    assert q.parts[..|d.parts|] == q.parts[..|e|][..|d.parts|] == d.parts;
    assert q.parts[|d.parts|] == e[|d.parts|];
  }

  /** No two entries of a properly named disc share a place. */
  lemma {:induction false} PlacesDiffer(t: Tree, dir: Name, j: nat, k: nat)
    requires j < k < Count(t) && ProperNames(t)
    ensures At(ItemAt(t, dir, j).path) != At(ItemAt(t, dir, k).path)
    decreases t
  {
    hide At, Join;
    match t
    case File(name, _, _, next) =>
      if j == 0 {
        ItemWithin(t, dir, j);
        ItemWithin(t, dir, k);
      } else {
        PlacesDiffer(next, dir, j - 1, k - 1);
      }
    case Folder(name, inside, next) =>
      var n := Count(inside);
      if j > n {
        PlacesDiffer(next, dir, j - 1 - n, k - 1 - n);
      } else if 0 < j && k <= n {
        ProperJoin(dir, name);
        PlacesDiffer(inside, Join(dir, name), j - 1, k - 1);
      } else {
        ItemWithin(t, dir, j);
        ItemWithin(t, dir, k);
      }
  }

  /** The temporary of file `k`: beside it, and hence at one of the directory's own paths only
      when the file is one of its entries. */
  lemma {:induction false} PartWithin(t: Tree, dir: Name, k: nat)
    requires k < Count(t) && ProperNames(t) && ItemAt(t, dir, k).FileItem?
    ensures var q := At(ItemAt(t, dir, k).path + PART);
            if Direct(t, k) then q == At(dir).(parts := At(dir).parts + [HeadOf(t, k) + PART])
            else Within(q, At(dir), HeadOf(t, k)) && |q.parts| > |At(dir).parts| + 1
    decreases t
  {
    hide At, Join;
    match t
    case File(name, _, _, next) =>
      if k == 0 {
        ProperPart(dir, name);
      } else {
        PartWithin(next, dir, k - 1);
      }
    case Folder(name, inside, next) =>
      if k <= Count(inside) {
        var sub := Join(dir, name);
        ProperJoin(dir, name);
        PartWithin(inside, sub, k - 1);
        var q := At(ItemAt(t, dir, k).path + PART);
        if Direct(inside, k - 1) {
          assert Within(q, At(sub), HeadOf(inside, k - 1) + PART);
          Deeper(q, At(dir), Fold(name), HeadOf(inside, k - 1) + PART);
        } else {
          Deeper(q, At(dir), Fold(name), HeadOf(inside, k - 1));
        }
      } else {
        PartWithin(next, dir, k - 1 - Count(inside));
      }
  }

  lemma {:induction false} PartOfSibling(t: Tree, dir: Name, j: nat, folded: Name)
    requires j < Count(t) && ItemAt(t, dir, j).FileItem? && Direct(t, j) && HeadOf(t, j) + PART == folded
    ensures LaterHasPart(folded, t)
    decreases t
  {
    match t
    case File(name, _, _, next) =>
      if j > 0 {
        PartOfSibling(next, dir, j - 1, folded);
      }
    case Folder(name, inside, next) =>
      PartOfSibling(next, dir, j - 1 - Count(inside), folded);
  }

  lemma {:induction false} SiblingOfPart(t: Tree, dir: Name, folded: Name) returns (j: nat)
    requires LaterHasPart(folded, t)
    ensures j < Count(t) && ItemAt(t, dir, j).FileItem? && Direct(t, j) && HeadOf(t, j) + PART == folded
    decreases t
  {
    match t
    case File(name, _, _, next) =>
      if Fold(name) + PART == folded {
        j := 0;
      } else {
        j := SiblingOfPart(next, dir, folded);
        j := j + 1;
      }
    case Folder(name, inside, next) =>
      j := SiblingOfPart(next, dir, folded);
      j := j + 1 + Count(inside);
  }

  /** A later file's temporary at the place of file `k` belongs to a sibling. */
  lemma {:induction false} ClashIsSibling(t: Tree, dir: Name, k: nat, j: nat)
    requires k < j < Count(t) && ProperNames(t)
    requires ItemAt(t, dir, k).FileItem? && ItemAt(t, dir, j).FileItem?
    requires At(ItemAt(t, dir, j).path + PART) == At(ItemAt(t, dir, k).path)
    ensures Lost(t, k)
    decreases t
  {
    hide At, Join;
    match t
    case File(name, _, _, next) =>
      if k > 0 {
        ClashIsSibling(next, dir, k - 1, j - 1);
      } else {
        ItemWithin(t, dir, 0);
        PartWithin(t, dir, j);
        PartOfSibling(next, dir, j - 1, Fold(name));
      }
    case Folder(name, inside, next) =>
      var n := Count(inside);
      if k > n {
        ClashIsSibling(next, dir, k - 1 - n, j - 1 - n);
      } else if j <= n {
        ProperJoin(dir, name);
        ClashIsSibling(inside, Join(dir, name), k - 1, j - 1);
      } else {
        ItemWithin(t, dir, k);
        PartWithin(t, dir, j);
      }
  }

  /** And such a sibling's temporary does lead there. */
  lemma {:induction false} SiblingClashes(t: Tree, dir: Name, k: nat) returns (j: nat)
    requires k < Count(t) && ProperNames(t) && ItemAt(t, dir, k).FileItem? && Lost(t, k)
    ensures k < j < Count(t) && ItemAt(t, dir, j).FileItem?
    ensures At(ItemAt(t, dir, j).path + PART) == At(ItemAt(t, dir, k).path)
    decreases t
  {
    hide At, Join;
    match t
    case File(name, _, _, next) =>
      if k > 0 {
        j := SiblingClashes(next, dir, k - 1);
        j := j + 1;
      } else {
        j := SiblingOfPart(next, dir, Fold(name));
        PartWithin(next, dir, j);
        ProperJoin(dir, name);
        j := j + 1;
      }
    case Folder(name, inside, next) =>
      if k <= Count(inside) {
        ProperJoin(dir, name);
        j := SiblingClashes(inside, Join(dir, name), k - 1);
        j := j + 1;
      } else {
        j := SiblingClashes(next, dir, k - 1 - Count(inside));
        j := j + 1 + Count(inside);
      }
  }
}
