/**
 * The shape of the part tree as plain values: the set of live parts, each part's
 * parent (`up`), each part's ordered child list (`down`) and each part's set of
 * ancestors, itself included (`anc`). The maps may still hold entries for parts that
 * have been deleted; only the entries of live parts matter. `IsTree` is the invariant
 * the owning model keeps; the lemmas show that appending a new part and deleting a
 * child's subtree keep it, and how a subtree is made of the subtrees of its children.
 */
module TreeShape {
  import opened Parts

  type Up = map<ModelPart, ModelPart?>
  type Down = map<ModelPart, seq<ModelPart>>
  type Ancestry = map<ModelPart, set<ModelPart>>

  /**
   * `root` has no parent; every other live part has a live parent that lists it and
   * is one level above it (its ancestors are its parent's plus itself, and it is not
   * among its parent's, so the parent links are acyclic); every listed child is live
   * and points back; no list repeats a part; recorded ancestors are live.
   */
  ghost predicate IsTree(root: ModelPart, live: set<ModelPart>, anc: Ancestry, up: Up, down: Down)
  {
    && root in live
    && live <= anc.Keys && live <= up.Keys && live <= down.Keys
    && up[root] == null
    && anc[root] == {root}
    && (forall n {:trigger up[n]} :: n in live && n != root ==>
          && up[n] != null
          && up[n] in live
          && n in down[up[n]]
          && n !in anc[up[n]]
          && anc[n] == {n} + anc[up[n]])
    && (forall n, c {:trigger c in down[n]} :: n in live && c in down[n] ==> c in live && up[c] == n)
    && (forall n, i, j :: n in live && 0 <= i < j < |down[n]| ==> down[n][i] != down[n][j])
    && (forall n, a {:trigger a in anc[n]} :: n in live && a in anc[n] ==> a in live)
  }

  /** The part `x` and every part of `live` below it. */
  ghost function Subtree(live: set<ModelPart>, anc: Ancestry, x: ModelPart): set<ModelPart>
  {
    set n | n in live && n in anc && x in anc[n]
  }

  /** Every live part is among its own ancestors. */
  lemma SelfAncestor(root: ModelPart, live: set<ModelPart>, anc: Ancestry, up: Up, down: Down, n: ModelPart)
    requires IsTree(root, live, anc, up, down) && n in live
    ensures n in anc[n]
  {
    if n != root {
      assert anc[n] == {n} + anc[up[n]];
    }
  }

  /** Ancestor sets nest: the ancestors of an ancestor of `n` are ancestors of `n`. */
  lemma {:induction false} AncestorsNested(root: ModelPart, live: set<ModelPart>, anc: Ancestry, up: Up, down: Down, n: ModelPart, a: ModelPart)
    requires IsTree(root, live, anc, up, down) && n in live && a in anc[n]
    ensures anc[a] <= anc[n]
    decreases |anc[n]|
  {
    if a != n {
      assert n != root;
      var q := up[n];
      assert anc[n] == {n} + anc[q] && n !in anc[q];
      assert |anc[q]| < |anc[n]|;
      AncestorsNested(root, live, anc, up, down, q, a);
    }
  }

  /** The root is an ancestor of every live part: every live part hangs below the root. */
  lemma {:induction false} RootIsAncestor(root: ModelPart, live: set<ModelPart>, anc: Ancestry, up: Up, down: Down, n: ModelPart)
    requires IsTree(root, live, anc, up, down) && n in live
    ensures root in anc[n]
    decreases |anc[n]|
  {
    if n != root {
      var q := up[n];
      assert anc[n] == {n} + anc[q] && n !in anc[q];
      assert |anc[q]| < |anc[n]|;
      RootIsAncestor(root, live, anc, up, down, q);
    }
  }

  /**
   * Appending a new part `c` at the end of live part `p`'s list, with `p` as its parent
   * and no children of its own, keeps the shape a tree.
   */
  lemma AppendKeepsTree(root: ModelPart, live: set<ModelPart>, anc: Ancestry, up: Up, down: Down, p: ModelPart, c: ModelPart)
    requires IsTree(root, live, anc, up, down) && p in live && c !in live
    ensures IsTree(root, live + {c}, anc[c := {c} + anc[p]], up[c := p], down[p := down[p] + [c]][c := []])
  {
    var live', anc', up', down' := live + {c}, anc[c := {c} + anc[p]], up[c := p], down[p := down[p] + [c]][c := []];
    assert c !in anc[p];
    forall n | n in live' && n != root
      ensures up'[n] != null && up'[n] in live' && n in down'[up'[n]]
      ensures n !in anc'[up'[n]] && anc'[n] == {n} + anc'[up'[n]]
    {
      if n != c {
        assert up'[n] == up[n] && up[n] != c;
        assert n in down[up[n]];
      }
    }
    forall n, x | n in live' && x in down'[n] ensures x in live' && up'[x] == n {
      if n == p {
        assert down'[n] == down[p] + [c];
        if x != c {
          assert x in down[p];
          assert up'[x] == up[x];
        }
      } else if n != c {
        assert down'[n] == down[n];
        assert up'[x] == up[x];
      }
    }
    forall n, i, j | n in live' && 0 <= i < j < |down'[n]| ensures down'[n][i] != down'[n][j] {
      if n == p && j == |down[p]| {
        assert down[p][i] in down[p];
      }
    }
    forall n, a | n in live' && a in anc'[n] ensures a in live' {
      if n == c && a != c {
        assert a in anc[p];
      }
    }
  }

  /** Removing the element at `row` from a list without repeats leaves the other elements, still without repeats. */
  lemma Without<T>(s: seq<T>, row: int)
    requires 0 <= row < |s|
    requires forall i, j :: 0 <= i < j < |s| ==> s[i] != s[j]
    ensures var t := s[..row] + s[row + 1..];
            && (forall y :: y in t <==> y in s && y != s[row])
            && (forall i, j :: 0 <= i < j < |t| ==> t[i] != t[j])
  {
    var t := s[..row] + s[row + 1..];
    forall y ensures y in t <==> y in s && y != s[row] {
      if y in t {
        var k :| 0 <= k < |t| && t[k] == y;
        if k < row {
          assert s[k] == y;
        } else {
          assert s[k + 1] == y;
        }
      }
      if y in s && y != s[row] {
        var k :| 0 <= k < |s| && s[k] == y;
        if k < row {
          assert t[k] == y;
        } else {
          assert t[k - 1] == y;
        }
      }
    }
    forall i, j | 0 <= i < j < |t| ensures t[i] != t[j] {
      var i', j' := if i < row then i else i + 1, if j < row then j else j + 1;
      assert t[i] == s[i'] && t[j] == s[j'];
    }
  }

  /**
   * Taking the child at `row` out of live part `p`'s list and deleting that child's whole
   * subtree keeps the shape a tree; `p` and the root survive.
   */
  lemma RemoveKeepsTree(root: ModelPart, live: set<ModelPart>, anc: Ancestry, up: Up, down: Down, p: ModelPart, row: int,
                        live': set<ModelPart>, down': Down)
    requires IsTree(root, live, anc, up, down) && p in live && 0 <= row < |down[p]|
    requires live' == live - Subtree(live, anc, down[p][row])
    requires down' == down[p := down[p][..row] + down[p][row + 1..]]
    ensures p in live' && root in live'
    ensures IsTree(root, live', anc, up, down')
  {
    var x := down[p][row];
    assert x in down[p];
    Without(down[p], row);
    assert x in anc[x] && x != root && up[x] == p by {
      SelfAncestor(root, live, anc, up, down, x);
    }
    assert p in live' && root in live';
    RemoveKeepsParents(root, live, anc, up, down, p, row, live', down');
    RemoveKeepsChildren(root, live, anc, up, down, p, row, live', down');
    forall n, i, j | n in live' && 0 <= i < j < |down'[n]| ensures down'[n][i] != down'[n][j] {
    }
    forall n, a | n in live' && a in anc[n] ensures a in live' {
      AncestorsNested(root, live, anc, up, down, n, a);
    }
  }

  /** After the deletion, every surviving part other than the root has a surviving parent one level above it. */
  lemma RemoveKeepsParents(root: ModelPart, live: set<ModelPart>, anc: Ancestry, up: Up, down: Down, p: ModelPart, row: int,
                           live': set<ModelPart>, down': Down)
    requires IsTree(root, live, anc, up, down) && p in live && 0 <= row < |down[p]|
    requires live' == live - Subtree(live, anc, down[p][row])
    requires down' == down[p := down[p][..row] + down[p][row + 1..]]
    ensures forall n {:trigger up[n]} :: n in live' && n != root ==>
              && up[n] != null
              && up[n] in live'
              && n in down'[up[n]]
              && n !in anc[up[n]]
              && anc[n] == {n} + anc[up[n]]
  {
    var x := down[p][row];
    Without(down[p], row);
    forall n | n in live' && n != root
      ensures up[n] != null && up[n] in live' && n in down'[up[n]]
      ensures n !in anc[up[n]] && anc[n] == {n} + anc[up[n]]
    {
      PrunedParent(root, live, anc, up, down, x, n);
    }
  }

  /** After the deletion, every child listed by a surviving part survives and points back. */
  lemma RemoveKeepsChildren(root: ModelPart, live: set<ModelPart>, anc: Ancestry, up: Up, down: Down, p: ModelPart, row: int,
                            live': set<ModelPart>, down': Down)
    requires IsTree(root, live, anc, up, down) && p in live && 0 <= row < |down[p]|
    requires live' == live - Subtree(live, anc, down[p][row])
    requires down' == down[p := down[p][..row] + down[p][row + 1..]]
    ensures forall n, c {:trigger c in down'[n]} :: n in live' && c in down'[n] ==> c in live' && up[c] == n
  {
    var x := down[p][row];
    Without(down[p], row);
    assert x in down[p] && up[x] == p;
    forall n, c | n in live' && c in down'[n] ensures c in live' && up[c] == n {
      assert c in down[n] && c != x;
      PrunedChild(root, live, anc, up, down, x, n, c);
    }
  }

  /** A part that survives the deletion of `x`'s subtree keeps a surviving parent. */
  lemma PrunedParent(root: ModelPart, live: set<ModelPart>, anc: Ancestry, up: Up, down: Down, x: ModelPart, n: ModelPart)
    requires IsTree(root, live, anc, up, down) && n in live && n != root && x !in anc[n]
    ensures up[n] in live && x !in anc[up[n]] && n != x
  {
    SelfAncestor(root, live, anc, up, down, n);
    assert anc[n] == {n} + anc[up[n]];
  }

  /** A child, other than `x`, of a part that survives the deletion of `x`'s subtree survives it. */
  lemma PrunedChild(root: ModelPart, live: set<ModelPart>, anc: Ancestry, up: Up, down: Down, x: ModelPart, n: ModelPart, c: ModelPart)
    requires IsTree(root, live, anc, up, down) && n in live && x !in anc[n] && c in down[n] && c != x
    ensures c in live && x !in anc[c] && up[c] == n
  {
    assert up[c] == n;
    assert c != root;
    assert anc[c] == {c} + anc[n];
  }

  /**
   * Deleting a part deletes its children, each with its own subtree, and nothing else:
   * the subtree of a live part `x` is `x` together with the subtrees of its children.
   */
  lemma SubtreeOfChildren(root: ModelPart, live: set<ModelPart>, anc: Ancestry, up: Up, down: Down, x: ModelPart)
    requires IsTree(root, live, anc, up, down) && x in live
    ensures forall n :: n in Subtree(live, anc, x) <==> n == x || exists c :: c in down[x] && n in Subtree(live, anc, c)
  {
    SelfAncestor(root, live, anc, up, down, x);
    forall n | n in Subtree(live, anc, x) && n != x ensures exists c :: c in down[x] && n in Subtree(live, anc, c) {
      var c := ChildOnPath(root, live, anc, up, down, x, n);
    }
    forall n, c | c in down[x] && n in Subtree(live, anc, c) ensures n in Subtree(live, anc, x) {
      AncestorsNested(root, live, anc, up, down, n, c);
      assert anc[c] == {c} + anc[x];
    }
  }

  /** A part strictly below `x` lies in the subtree of one of `x`'s children. */
  lemma {:induction false} ChildOnPath(root: ModelPart, live: set<ModelPart>, anc: Ancestry, up: Up, down: Down, x: ModelPart, n: ModelPart)
    returns (c: ModelPart)
    requires IsTree(root, live, anc, up, down) && n in live && x in anc[n] && n != x
    ensures c in down[x] && c in anc[n]
    decreases |anc[n]|
  {
    assert n != root;
    var q := up[n];
    assert anc[n] == {n} + anc[q] && n !in anc[q];
    if q == x {
      c := n;
      SelfAncestor(root, live, anc, up, down, n);
    } else {
      assert |anc[q]| < |anc[n]|;
      c := ChildOnPath(root, live, anc, up, down, x, q);
    }
  }
}
