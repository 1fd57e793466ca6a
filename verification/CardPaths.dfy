/**
 Where a path leads on the SD card: dot segments resolved, empty ones skipped, letters compared
 without regard to case, and an absolute path leaving the output directory. Two paths that lead
 to one place name one file.
 */
module CardPaths {
  import opened Sequences
  import opened DiscTable
  import opened DiscWalk

  const DOT: byte := 46
  const PART: Name := [46, 112, 97, 114, 116]

  /** From the output directory (or the card's root): so many directories up, then these parts. */
  datatype Place = Place(absolute: bool, up: nat, parts: seq<Name>)

  const HERE := Place(false, 0, [])
  const ROOT := Place(true, 0, [])

  function FoldByte(b: byte): byte { if 65 <= b <= 90 then b + 32 else b }

  function Fold(n: Name): (r: Name)
    ensures |r| == |n|
  {
    seq(|n|, i requires 0 <= i < |n| => FoldByte(n[i]))
  }

  /** One segment further. */
  function Step(p: Place, c: Name): Place {
    if c == [] || c == [DOT] then p
    else if c != [DOT, DOT] then p.(parts := p.parts + [Fold(c)])
    else if p.parts != [] then p.(parts := p.parts[..|p.parts| - 1])
    else if p.absolute then p
    else p.(up := p.up + 1)
  }

  /** The position of the last slash among the first `n` bytes, or -1. */
  function LastSlashBelow(path: Name, n: nat): (i: int)
    requires n <= |path|
    ensures -1 <= i < n
  {
    if n == 0 || path[n - 1] == SLASH then n - 1 else LastSlashBelow(path, n - 1)
  }

  function LastSlash(path: Name): (i: int)
    ensures -1 <= i < |path|
  {
    LastSlashBelow(path, |path|)
  }

  /** Where the last segment starts from. */
  function Base(path: Name): Place
    decreases |path|, 0
  {
    var i := LastSlash(path);
    if i < 0 then HERE else if i == 0 then ROOT else At(path[..i])
  }

  function At(path: Name): Place
    decreases |path|, 1
  {
    Step(Base(path), path[LastSlash(path) + 1..])
  }

  /** A name that is one segment of its own. */
  predicate ProperName(n: Name) { n != [] && SLASH !in n && n != [DOT] && n != [DOT, DOT] }

  lemma {:induction false} LastSlashSplits(path: Name, n: nat)
    requires n <= |path|
    ensures var i := LastSlashBelow(path, n);
            && (i >= 0 ==> path[i] == SLASH)
            && forall j | i < j < n :: path[j] != SLASH
  {
    if n > 0 && path[n - 1] != SLASH {
      LastSlashSplits(path, n - 1);
    }
  }

  lemma LastSlashIs(path: Name, i: int)
    requires -1 <= i < |path| && (i >= 0 ==> path[i] == SLASH)
    requires forall j | i < j < |path| :: path[j] != SLASH
    ensures LastSlash(path) == i
  {
    LastSlashSplits(path, |path|);
    hide LastSlashBelow;
  }

  /** A path of one segment. */
  lemma AtSegment(n: Name)
    requires SLASH !in n
    ensures At(n) == Step(HERE, n)
  {
    LastSlashIs(n, -1);
    assert n[0..] == n;
    hide Step, LastSlash;
  }

  /** A path of several segments. */
  lemma AtLast(dir: Name, n: Name)
    requires SLASH !in n && dir != []
    ensures At(dir + [SLASH] + n) == Step(At(dir), n)
  {
    var path := dir + [SLASH] + n;
    assert path[|dir|] == SLASH && path[..|dir|] == dir && path[|dir| + 1..] == n;
    assert forall j | |dir| < j < |path| :: path[j] == n[j - |dir| - 1];
    LastSlashIs(path, |dir|);
    hide Step, LastSlash;
  }

  /** A name without slashes leads one segment further from its directory. */
  lemma AtJoin(dir: Name, n: Name)
    requires SLASH !in n
    ensures At(Join(dir, n)) == Step(At(dir), n)
  {
    hide At;
    if dir == [] {
      AtSegment([]);
      AtSegment(n);
    } else {
      AtLast(dir, n);
    }
  }

  /** Two bytes that the card takes for one: the same, or one the capital of the other. */
  predicate SameByte(a: byte, b: byte) { a == b || (65 <= a <= 90 && b == a + 32) || (65 <= b <= 90 && a == b + 32) }

  /** The card tells names apart exactly by length and letters, capitals apart. */
  lemma SameNameExactly(m: Name, n: Name)
    ensures Fold(m) == Fold(n) <==> |m| == |n| && forall i | 0 <= i < |m| :: SameByte(m[i], n[i])
  {
    if |m| == |n| && forall i | 0 <= i < |m| :: SameByte(m[i], n[i]) {
      forall i | 0 <= i < |m| ensures Fold(m)[i] == Fold(n)[i] {
        assert SameByte(m[i], n[i]);
      }
    }
    if Fold(m) == Fold(n) {
      forall i | 0 <= i < |m| ensures SameByte(m[i], n[i]) {
        assert Fold(m)[i] == Fold(n)[i];
      }
    }
  }

  /** A dot segment stays; two dots undo the last proper segment, stay at the card's root and climb
      out of the output directory; and a path that begins with a slash starts from the root. */
  lemma DotSegments(dir: Name, n: Name)
    requires ProperName(n)
    ensures At(Join(dir, n) + [SLASH, DOT]) == At(Join(dir, n))
    ensures At(Join(dir, n) + [SLASH, DOT, DOT]) == At(dir)
    ensures Step(ROOT, [DOT, DOT]) == ROOT && Step(HERE, [DOT, DOT]) == HERE.(up := 1)
    ensures Step(HERE.(up := 1), [DOT, DOT]) == HERE.(up := 2)
    ensures At([SLASH] + n) == ROOT.(parts := [Fold(n)])
  {
    hide At, Fold;
    AtJoin(dir, n);
    AtLast(Join(dir, n), [DOT]);
    AtLast(Join(dir, n), [DOT, DOT]);
    assert Join(dir, n) + [SLASH] + [DOT] == Join(dir, n) + [SLASH, DOT];
    assert Join(dir, n) + [SLASH] + [DOT, DOT] == Join(dir, n) + [SLASH, DOT, DOT];
    AtRooted(n);
  }

  lemma AtRooted(n: Name)
    requires SLASH !in n
    ensures At([SLASH] + n) == Step(ROOT, n)
  {
    var path := [SLASH] + n;
    assert forall j | 0 < j < |path| :: path[j] == n[j - 1];
    LastSlashIs(path, 0);
    assert path[1..] == n;
    hide Step, LastSlash;
  }

  lemma FoldPart(n: Name)
    ensures Fold(n + PART) == Fold(n) + PART
  {
  }

  /** The temporary of a path is never the path itself. */
  lemma PartDiffers(path: Name)
    ensures At(path + PART) != At(path)
  {
    hide At, Base, LastSlash, Step;
    PartKeepsBase(path);
    AtIs(path);
    StepPartDiffers(Base(path), path[LastSlash(path) + 1..]);
  }

  lemma {:induction false} AtIs(path: Name)
    ensures At(path) == Step(Base(path), path[LastSlash(path) + 1..])
  {
    hide Step, LastSlash, Base;
  }

  lemma StepPartDiffers(p: Place, last: Name)
    ensures Step(p, last + PART) != Step(p, last)
  {
    hide Fold;
    var longer := last + PART;
    assert |longer| >= 5 && |[DOT, DOT]| == 2 && |[DOT]| == 1;
    var q := p.parts + [Fold(longer)];
    assert q[|q| - 1] == Fold(longer);
    assert Step(p, longer).parts == q;
    if last != [] && last != [DOT] && last != [DOT, DOT] {
      var r := p.parts + [Fold(last)];
      assert r[|r| - 1] == Fold(last);
      assert |Fold(last)| != |Fold(longer)|;
    } else {
      assert |Step(p, last).parts| <= |p.parts|;
    }
  }

  lemma PartKeepsSlash(path: Name)
    ensures LastSlash(path + PART) == LastSlash(path)
  {
    var i, whole := LastSlash(path), path + PART;
    LastSlashSplits(path, |path|);
    hide LastSlashBelow;
    assert forall j | |path| <= j < |whole| :: whole[j] == PART[j - |path|];
    assert forall j | i < j < |path| :: whole[j] == path[j];
    assert i >= 0 ==> whole[i] == path[i];
    LastSlashIs(whole, i);
  }

  /** The temporary lies beside its path. */
  lemma PartKeepsBase(path: Name)
    ensures var last := path[LastSlash(path) + 1..];
            At(path + PART) == Step(Base(path), last + PART)
  {
    var i, whole := LastSlash(path), path + PART;
    hide At, Step, LastSlash;
    PartKeepsSlash(path);
    AtIs(whole);
    assert whole[i + 1..] == path[i + 1..] + PART;
    assert i > 0 ==> whole[..i] == path[..i];
  }
}
