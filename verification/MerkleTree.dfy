/**
 The merkle tree of a block: why joining the coinbase with the branches a pool sends gives its root.
 */
module MerkleTree {
  import opened Numerals
  import opened ClusterWork

  type Row = seq<seq<Byte>>

  // The row above: the hashes of neighbours; a last one without a neighbour is taken twice.
  function Parents(sha: Sha, row: Row): (parents: Row)
    ensures |parents| == (|row| + 1) / 2
  {
    seq((|row| + 1) / 2, i requires 0 <= i < (|row| + 1) / 2 =>
      sha(row[2 * i] + row[if 2 * i + 1 < |row| then 2 * i + 1 else 2 * i]))
  }

  function TreeRoot(sha: Sha, row: Row): seq<Byte>
    requires row != []
    decreases |row|
  {
    if |row| == 1 then row[0] else TreeRoot(sha, Parents(sha, row))
  }

  // The neighbours on the way from the first leaf to the root.
  function Branches(sha: Sha, row: Row): Row
    decreases |row|
  {
    if |row| <= 1 then [] else [row[1]] + Branches(sha, Parents(sha, row))
  }

  // The way up from a first leaf.
  function Climbed(sha: Sha, first: seq<Byte>, branches: Row): seq<Byte>
    decreases |branches|
  {
    if branches == [] then first else Climbed(sha, sha(first + branches[0]), branches[1..])
  }

  lemma {:induction false} ClimbedSnoc(sha: Sha, first: seq<Byte>, branches: Row, last: seq<Byte>)
    ensures Climbed(sha, first, branches + [last]) == sha(Climbed(sha, first, branches) + last)
    decreases |branches|
  {
    if branches == [] {
      assert ([] + [last])[1..] == [];
    } else {
      ClimbedSnoc(sha, sha(first + branches[0]), branches[1..], last);
      assert (branches + [last])[1..] == branches[1..] + [last];
    }
  }

  lemma {:induction false} RootIsClimbed(sha: Sha, coinbase: seq<Byte>, branches: Row)
    ensures MerkleRoot(sha, coinbase, branches) == Climbed(sha, sha(coinbase), branches)
  {
    if branches != [] {
      var n := |branches| - 1;
      RootIsClimbed(sha, coinbase, branches[..n]);
      ClimbedSnoc(sha, sha(coinbase), branches[..n], branches[n]);
      assert branches == branches[..n] + [branches[n]];
    }
  }

  lemma {:induction false} ClimbsToRoot(sha: Sha, row: Row)
    requires row != []
    ensures Climbed(sha, row[0], Branches(sha, row)) == TreeRoot(sha, row)
    decreases |row|
  {
    if |row| > 1 {
      ClimbsToRoot(sha, Parents(sha, row));
      var branches := Branches(sha, row);
      assert branches[1..] == Branches(sha, Parents(sha, row));
    }
  }

  // The branches do not depend on the first leaf, so that a pool can send them beforehand.
  lemma {:induction false} BranchesIgnoreFirst(sha: Sha, row: Row, first: seq<Byte>)
    requires row != []
    ensures Branches(sha, row[0 := first]) == Branches(sha, row)
    decreases |row|
  {
    if |row| > 1 {
      var other := row[0 := first];
      BranchesIgnoreFirst(sha, Parents(sha, row), Parents(sha, other)[0]);
      assert Parents(sha, row)[0 := Parents(sha, other)[0]] == Parents(sha, other);
    }
  }

  // With the branches of a block whose other transactions hash to others, found with anything in
  // the place of the coinbase, the computed root is that of the block with this coinbase.
  lemma RootOfBlock(sha: Sha, coinbase: seq<Byte>, others: Row, anything: seq<Byte>)
    ensures MerkleRoot(sha, coinbase, Branches(sha, [anything] + others)) == TreeRoot(sha, [sha(coinbase)] + others)
  {
    var row := [sha(coinbase)] + others;
    assert row[0 := anything] == [anything] + others;
    BranchesIgnoreFirst(sha, row, anything);
    RootIsClimbed(sha, coinbase, Branches(sha, row));
    ClimbsToRoot(sha, row);
  }
}
