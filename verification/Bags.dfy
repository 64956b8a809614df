/** Counting the occurrences of a value across a sequence of sequences. */
module Bags {

  /** The multiset of everything found in any of the cells. */
  ghost function Bag<T>(cells: seq<seq<T>>): multiset<T> {
    if cells == [] then multiset{} else multiset(cells[0]) + Bag(cells[1..])
  }

  lemma {:induction false} BagConcat<T>(a: seq<seq<T>>, b: seq<seq<T>>)
    ensures Bag(a + b) == Bag(a) + Bag(b)
  {
    if a == [] {
      assert a + b == b;
    } else {
      assert (a + b)[1..] == a[1..] + b;
      BagConcat(a[1..], b);
    }
  }

  lemma BagSingle<T>(cell: seq<T>)
    ensures Bag([cell]) == multiset(cell)
  {
    assert [cell][1..] == [];
  }

  /** Replacing one cell exchanges exactly that cell's contents. */
  lemma {:induction false} BagUpdate<T>(cells: seq<seq<T>>, i: nat, cell: seq<T>)
    requires i < |cells|
    ensures Bag(cells[i := cell]) + multiset(cells[i]) == Bag(cells) + multiset(cell)
  {
    if i == 0 {
      assert cells[0 := cell][1..] == cells[1..];
    } else {
      assert cells[i := cell][1..] == cells[1..][i - 1 := cell];
      BagUpdate(cells[1..], i - 1, cell);
      assert cells[1..][i - 1] == cells[i];
      calc {
        Bag(cells[i := cell]) + multiset(cells[i]);
        multiset(cells[0]) + (Bag(cells[1..][i - 1 := cell]) + multiset(cells[i]));
        multiset(cells[0]) + (Bag(cells[1..]) + multiset(cell));
      }
    }
  }

  lemma {:induction false} BagEmpty<T>(cells: seq<seq<T>>)
    requires forall i :: 0 <= i < |cells| ==> cells[i] == []
    ensures Bag(cells) == multiset{}
  {
    if cells != [] {
      BagEmpty(cells[1..]);
    }
  }

  lemma BagUpdateCount<T>(cells: seq<seq<T>>, i: nat, cell: seq<T>, x: T)
    requires i < |cells|
    ensures Bag(cells[i := cell])[x] + multiset(cells[i])[x] == Bag(cells)[x] + multiset(cell)[x]
  {
    BagUpdate(cells, i, cell);
    var a, b, m, n := Bag(cells[i := cell]), Bag(cells), multiset(cells[i]), multiset(cell);
    assert a + m == b + n;
    assert (a + m)[x] == (b + n)[x];
  }

  /** A cell's contents are part of the whole. */
  lemma {:induction false} BagMember<T>(cells: seq<seq<T>>, i: nat)
    requires i < |cells|
    ensures multiset(cells[i]) <= Bag(cells)
  {
    if i > 0 {
      BagMember(cells[1..], i - 1);
    }
  }

  /** A value that is counted sits at some position of some cell. */
  lemma {:induction false} BagFind<T>(cells: seq<seq<T>>, x: T) returns (i: nat, k: nat)
    requires x in Bag(cells)
    ensures i < |cells| && k < |cells[i]| && cells[i][k] == x
  {
    if x in multiset(cells[0]) {
      i := 0;
      k :| 0 <= k < |cells[0]| && cells[0][k] == x;
    } else {
      var j, k' := BagFind(cells[1..], x);
      i, k := j + 1, k';
    }
  }

  /** A value found at two positions is counted twice. */
  lemma {:induction false} BagTwice<T>(cells: seq<seq<T>>, x: T, i: nat, k: nat, j: nat, l: nat)
    requires i < |cells| && k < |cells[i]| && cells[i][k] == x
    requires j < |cells| && l < |cells[j]| && cells[j][l] == x
    requires i < j || (i == j && k < l)
    ensures Bag(cells)[x] >= 2
    decreases i
  {
    if i > 0 {
      BagTwice(cells[1..], x, i - 1, k, j - 1, l);
    } else if j > 0 {
      BagMember(cells[1..], j - 1);
      assert x in multiset(cells[0]) && x in multiset(cells[1..][j - 1]);
    } else {
      SeqTwice(cells[0], x, k, l);
    }
  }

  lemma SeqTwice<T>(s: seq<T>, x: T, k: nat, l: nat)
    requires k < l < |s| && s[k] == x == s[l]
    ensures multiset(s)[x] >= 2
  {
    assert s == s[..l] + s[l..];
    assert x in multiset(s[..l]) by { assert s[..l][k] == x; }
    assert x in multiset(s[l..]) by { assert s[l..][0] == x; }
  }

  /** A value counted at most once sits at no more than one position of one cell. */
  lemma BagUnique<T>(cells: seq<seq<T>>, x: T, i: nat, k: nat, j: nat, l: nat)
    requires Bag(cells)[x] <= 1
    requires i < |cells| && k < |cells[i]| && cells[i][k] == x
    requires j < |cells| && l < |cells[j]| && cells[j][l] == x
    ensures i == j && k == l
  {
    if i < j || (i == j && k < l) {
      BagTwice(cells, x, i, k, j, l);
    } else if j < i || (i == j && l < k) {
      BagTwice(cells, x, j, l, i, k);
    }
  }
}
