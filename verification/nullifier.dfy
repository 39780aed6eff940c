/** Nullifier derivation and the double-spend ledger (`nullifier.rs`): a set
    of 32-byte tags with single and all-or-nothing batch spends, export and
    restore, and an order-independent fingerprint of the whole set. */
module Nullifiers {
  import opened CryptoTypes
  import opened ByteCodec
  import opened Scalars
  import opened Hashing
  import opened NullifierKeys
  import opened Notes

  type Nullifier = Digest

  const NULLIFIER_TAG: string := "PRIVL1_NULLIFIER"
  const NULLIFIER_ROOT_TAG: string := "PRIVL1_NULLIFIER_ROOT"

  // ---------------------------------------------------------------------
  // Derivation.

  /** tag ‖ 0x00 ‖ nk (32 bytes LE) ‖ note commitment (64 bytes) ‖ position (8 bytes LE). */
  function NullifierPreimage(key: NullifierDerivingKey, note: Note, position: uint64): Bytes
  {
    Ascii(NULLIFIER_TAG) + [0] + Scalars.ToBytes(key.nk)
      + NoteCommitmentToBytes(NoteCommitmentOf(note)) + ToLE(position, 8)
  }

  /** `derive_nullifier`: the domain hasher fed the key, the note commitment
      and the position, in that order. */
  function DeriveNullifier(blake3: Blake3Fn, key: NullifierDerivingKey, note: Note, position: uint64): (n: Nullifier)
    ensures n == blake3(NullifierPreimage(key, note, position))
  {
    var nkBytes := Scalars.ToBytes(key.nk);
    var ncBytes := NoteCommitmentToBytes(NoteCommitmentOf(note));
    var posBytes := ToLE(position, 8);
    DomainHashPreimage(blake3, Ascii(NULLIFIER_TAG), [nkBytes, ncBytes, posBytes]);
    assert Concat([nkBytes, ncBytes, posBytes]) == nkBytes + ncBytes + posBytes by {
      assert Concat([posBytes]) == posBytes;
      assert [nkBytes, ncBytes, posBytes][1..] == [ncBytes, posBytes];
      assert [ncBytes, posBytes][1..] == [posBytes];
    }
    assert Ascii(NULLIFIER_TAG) + [0] + (nkBytes + ncBytes + posBytes)
        == Ascii(NULLIFIER_TAG) + [0] + nkBytes + ncBytes + posBytes;
    DomainHash(blake3, Ascii(NULLIFIER_TAG), [nkBytes, ncBytes, posBytes])
  }

  /** The preimage has a fixed width, and its last eight bytes are the
      position; so two positions give two distinct preimages. */
  lemma PositionsSeparate(key: NullifierDerivingKey, note: Note, p1: uint64, p2: uint64)
    requires p1 != p2
    ensures |NullifierPreimage(key, note, p1)| == |NULLIFIER_TAG| + 1 + 32 + 64 + 8
    ensures NullifierPreimage(key, note, p1) != NullifierPreimage(key, note, p2)
  {
    var a := NullifierPreimage(key, note, p1);
    var b := NullifierPreimage(key, note, p2);
    var k := |a| - 8;
    assert a[k..] == ToLE(p1, 8);
    assert b[k..] == ToLE(p2, 8);
    Pow256Of8();
    ToLEInjective(p1, p2, 8);
  }

  /** The commitment bytes are a placeholder that carries only the asset, so
      the nullifier does not depend on the note's value or randomness. */
  lemma NullifierIgnoresValueAndRandomness(blake3: Blake3Fn, key: NullifierDerivingKey, n1: Note, n2: Note, position: uint64)
    requires n1.assetId == n2.assetId
    ensures DeriveNullifier(blake3, key, n1, position) == DeriveNullifier(blake3, key, n2, position)
  {
    NoteCommitmentBytesOnlyAsset(NoteCommitmentOf(n1), NoteCommitmentOf(n2));
  }

  // ---------------------------------------------------------------------
  // The spent set.

  datatype NullifierSet = NullifierSet(spent: set<Nullifier>)

  function EmptySet(): (s: NullifierSet)
    ensures Len(s) == 0
  {
    NullifierSet({})
  }

  predicate IsSpent(s: NullifierSet, n: Nullifier)
  {
    n in s.spent
  }

  /** The number of spent nullifiers. */
  function Len(s: NullifierSet): (k: nat)
    ensures k == 0 <==> s.spent == {}
    ensures forall n :: n in s.spent ==> k == |s.spent - {n}| + 1
  {
    |s.spent|
  }

  predicate IsEmpty(s: NullifierSet)
  {
    Len(s) == 0
  }

  const DOUBLE_SPEND: string := "Double spend detected"

  /** Marks `n` spent, refusing a nullifier that already is; the set is
      returned with the outcome. */
  function Spend(s: NullifierSet, n: Nullifier): (r: (NullifierSet, Result<()>))
    ensures r.1.Err? <==> IsSpent(s, n)
    ensures r.1.Err? ==> r.0 == s && r.1.error == OperationFailed(DOUBLE_SPEND)
    ensures r.1.Ok? ==> r.0.spent == s.spent + {n}
  {
    if IsSpent(s, n) then (s, Err(OperationFailed(DOUBLE_SPEND)))
    else (NullifierSet(s.spent + {n}), Ok(()))
  }

  /** A successful spend makes `n` spent, grows the set by exactly one and
      makes a second spend of `n` fail. */
  lemma SpendGrowsByOne(s: NullifierSet, n: Nullifier)
    requires !IsSpent(s, n)
    ensures IsSpent(Spend(s, n).0, n)
    ensures Len(Spend(s, n).0) == Len(s) + 1
    ensures Spend(Spend(s, n).0, n).1.Err?
  {
  }

  /** Lower-case hexadecimal, two digits per byte. */
  function Hex(b: Bytes): (h: string)
    ensures |h| == 2 * |b|
  {
    if |b| == 0 then ""
    else [HexDigit(b[0] as int / 16), HexDigit(b[0] as int % 16)] + Hex(b[1..])
  }

  function HexDigit(d: int): char
    requires 0 <= d < 16
  {
    "0123456789abcdef"[d]
  }

  /** The index of the first element of `batch` that is already spent. */
  function FirstSpent(spent: set<Nullifier>, batch: seq<Nullifier>): (i: nat)
    requires exists k :: 0 <= k < |batch| && batch[k] in spent
    ensures i < |batch| && batch[i] in spent
    ensures forall k :: 0 <= k < i ==> batch[k] !in spent
  {
    if batch[0] in spent then 0
    else
      assert exists k :: 0 <= k < |batch[1..]| && batch[1..][k] in spent by {
        var k :| 0 <= k < |batch| && batch[k] in spent;
        assert batch[1..][k - 1] == batch[k];
      }
      1 + FirstSpent(spent, batch[1..])
  }

  /** The all-or-nothing batch spend, stated on sets: the error names the
      first spent element of the batch; otherwise the batch is added. */
  function SpendBatchSpec(s: NullifierSet, batch: seq<Nullifier>): (r: (NullifierSet, Result<()>))
  {
    if exists k :: 0 <= k < |batch| && batch[k] in s.spent then
      var i := FirstSpent(s.spent, batch);
      (s, Err(OperationFailed(DOUBLE_SPEND + ": " + Hex(batch[i]))))
    else
      (NullifierSet(s.spent + set k | 0 <= k < |batch| :: batch[k]), Ok(()))
  }

  /** `spend_batch`: one pass that checks every element, then one that inserts. */
  method SpendBatch(s: NullifierSet, batch: seq<Nullifier>) returns (s': NullifierSet, r: Result<()>)
    ensures (s', r) == SpendBatchSpec(s, batch)
  {
    var i := 0;
    while i < |batch|
      invariant 0 <= i <= |batch|
      invariant forall k :: 0 <= k < i ==> batch[k] !in s.spent
    {
      if batch[i] in s.spent {
        assert FirstSpent(s.spent, batch) == i by {
          var j := FirstSpent(s.spent, batch);
          assert !(j < i);
          assert !(i < j);
        }
        return s, Err(OperationFailed(DOUBLE_SPEND + ": " + Hex(batch[i])));
      }
      i := i + 1;
    }
    var acc := s.spent;
    i := 0;
    while i < |batch|
      invariant 0 <= i <= |batch|
      invariant acc == s.spent + set k | 0 <= k < i :: batch[k]
    {
      acc := acc + {batch[i]};
      i := i + 1;
      assert (set k | 0 <= k < i :: batch[k]) == (set k | 0 <= k < i - 1 :: batch[k]) + {batch[i - 1]};
    }
    return NullifierSet(acc), Ok(());
  }

  /** The batch fails exactly when one of its elements is already spent, and
      a failed batch changes nothing. */
  lemma BatchAtomic(s: NullifierSet, batch: seq<Nullifier>)
    ensures SpendBatchSpec(s, batch).1.Err? <==> exists k :: 0 <= k < |batch| && IsSpent(s, batch[k])
    ensures SpendBatchSpec(s, batch).1.Err? ==> SpendBatchSpec(s, batch).0 == s
  {
  }

  /** A successful batch spends every member and adds nothing else. */
  lemma BatchUnion(s: NullifierSet, batch: seq<Nullifier>, n: Nullifier)
    requires SpendBatchSpec(s, batch).1.Ok?
    ensures IsSpent(SpendBatchSpec(s, batch).0, n) <==> IsSpent(s, n) || n in batch
  {
    if n in batch {
      var k :| 0 <= k < |batch| && batch[k] == n;
    }
  }

  /** Duplicates inside one batch are accepted: `[a, a]` succeeds and adds one
      element, although spending `a` twice in a row fails. */
  lemma BatchAcceptsDuplicates(s: NullifierSet, a: Nullifier)
    requires !IsSpent(s, a)
    ensures SpendBatchSpec(s, [a, a]).1.Ok?
    ensures Len(SpendBatchSpec(s, [a, a]).0) == Len(s) + 1
    ensures Spend(Spend(s, a).0, a).1.Err?
  {
    var batch := [a, a];
    var added := set k | 0 <= k < 2 :: batch[k];
    assert added == {a} by {
      assert batch[0] in added;
    }
    assert SpendBatchSpec(s, batch).0.spent == s.spent + {a};
  }

  // ---------------------------------------------------------------------
  // Export and restore.

  predicate Distinct(l: seq<Nullifier>)
  {
    forall i, j :: 0 <= i < j < |l| ==> l[i] != l[j]
  }

  /** `l` lists the members of `members`, each once. */
  ghost predicate IsListing(l: seq<Nullifier>, members: set<Nullifier>)
  {
    Distinct(l) && forall x :: x in l <==> x in members
  }

  /** `all_nullifiers`: the members in the set's (unspecified) iteration order. */
  method AllNullifiers(s: NullifierSet) returns (l: seq<Nullifier>)
    ensures IsListing(l, s.spent)
  {
    l := [];
    var rest := s.spent;
    while rest != {}
      invariant rest <= s.spent
      invariant Distinct(l)
      invariant forall x :: x in l <==> x in s.spent && x !in rest
      decreases rest
    {
      var x :| x in rest;
      l := l + [x];
      rest := rest - {x};
    }
  }

  /** `restore` extends the set with every listed nullifier. */
  function Restore(s: NullifierSet, l: seq<Nullifier>): (r: NullifierSet)
    ensures forall x :: IsSpent(r, x) <==> IsSpent(s, x) || x in l
  {
    NullifierSet(s.spent + set x | x in l)
  }

  /** Restoring an export into an empty set reproduces membership and length. */
  lemma RestoreRoundTrip(s: NullifierSet, l: seq<Nullifier>)
    requires IsListing(l, s.spent)
    ensures Restore(EmptySet(), l) == s
    ensures Len(Restore(EmptySet(), l)) == Len(s)
  {
    assert Restore(EmptySet(), l).spent == s.spent;
  }

  // ---------------------------------------------------------------------
  // The persistent wrapper and its fingerprint.

  /** The persistent set: its storage is a no-op, so it is the in-memory set. */
  datatype PersistentNullifierSet = PersistentNullifierSet(inner: NullifierSet, dbPath: string)

  function PersistentSpend(p: PersistentNullifierSet, n: Nullifier): (r: (PersistentNullifierSet, Result<()>))
    ensures r.0.inner == Spend(p.inner, n).0 && r.1 == Spend(p.inner, n).1
    ensures r.0.dbPath == p.dbPath
  {
    var (s, res) := Spend(p.inner, n);
    (p.(inner := s), res)
  }

  method PersistentSpendBatch(p: PersistentNullifierSet, batch: seq<Nullifier>)
    returns (p': PersistentNullifierSet, r: Result<()>)
    ensures (p'.inner, r) == SpendBatchSpec(p.inner, batch)
    ensures p'.dbPath == p.dbPath
  {
    var s, res := SpendBatch(p.inner, batch);
    return p.(inner := s), res;
  }

  /** Strict lexicographic order on byte strings: the order of `[u8; 32]`. */
  predicate LexLess(a: Bytes, b: Bytes)
    decreases |a|
  {
    |a| > 0 && |b| > 0 && (a[0] < b[0] || (a[0] == b[0] && LexLess(a[1..], b[1..])))
  }

  lemma {:induction false} LexIrreflexive(a: Bytes, b: Bytes)
    ensures LexLess(a, b) ==> !LexLess(b, a)
    decreases |a|
  {
    if |a| > 0 && |b| > 0 && a[0] == b[0] {
      LexIrreflexive(a[1..], b[1..]);
    }
  }

  lemma {:induction false} LexTotal(a: Bytes, b: Bytes)
    requires |a| == |b| && a != b
    ensures LexLess(a, b) || LexLess(b, a)
    decreases |a|
  {
    if a[0] == b[0] {
      assert a == [a[0]] + a[1..] && b == [b[0]] + b[1..];
      LexTotal(a[1..], b[1..]);
    }
  }

  lemma {:induction false} LexTransitive(a: Bytes, b: Bytes, c: Bytes)
    requires LexLess(a, b) && LexLess(b, c)
    ensures LexLess(a, c)
    decreases |a|
  {
    if a[0] == b[0] && b[0] == c[0] {
      LexTransitive(a[1..], b[1..], c[1..]);
    }
  }

  predicate StrictlySorted(l: seq<Nullifier>)
  {
    forall i, j :: 0 <= i < j < |l| ==> LexLess(l[i], l[j])
  }

  ghost predicate IsSortedListing(l: seq<Nullifier>, members: set<Nullifier>)
  {
    StrictlySorted(l) && forall x :: x in l <==> x in members
  }

  /** Inserts a new element into a strictly sorted sequence. */
  function Insert(x: Nullifier, l: seq<Nullifier>): (r: seq<Nullifier>)
    requires StrictlySorted(l) && x !in l
    ensures StrictlySorted(r)
    ensures forall y :: y in r <==> y == x || y in l
    ensures |r| == |l| + 1
  {
    if |l| == 0 then [x]
    else if LexLess(x, l[0]) then
      var r := [x] + l;
      assert forall i, j :: 0 <= i < j < |r| ==> LexLess(r[i], r[j]) by {
        forall i, j | 0 <= i < j < |r|
          ensures LexLess(r[i], r[j])
        {
          if i == 0 && j > 1 {
            LexTransitive(x, l[0], l[j - 1]);
          }
        }
      }
      r
    else
      LexTotal(x, l[0]);
      var rest := Insert(x, l[1..]);
      var r := [l[0]] + rest;
      assert forall i, j :: 0 <= i < j < |r| ==> LexLess(r[i], r[j]) by {
        forall i, j | 0 <= i < j < |r|
          ensures LexLess(r[i], r[j])
        {
          if i == 0 {
            assert r[j] == rest[j - 1] && r[j] in rest;
            if r[j] != x {
              var k :| 0 <= k < |l[1..]| && l[1..][k] == r[j];
              assert l[k + 1] == r[j];
            }
          } else {
            assert r[i] == rest[i - 1] && r[j] == rest[j - 1];
          }
        }
      }
      r
  }

  /** Insertion sort of a listing; with distinct keys the result equals that
      of any stable sort by key. */
  function SortLex(l: seq<Nullifier>): (r: seq<Nullifier>)
    requires Distinct(l)
    ensures StrictlySorted(r)
    ensures forall y :: y in r <==> y in l
  {
    if |l| == 0 then []
    else
      assert l[0] !in l[1..] by {
        forall j | 0 <= j < |l[1..]|
          ensures l[1..][j] != l[0]
        {
          assert l[1..][j] == l[j + 1];
        }
      }
      Insert(l[0], SortLex(l[1..]))
  }

  lemma ListingsEmptyTogether(a: seq<Nullifier>, b: seq<Nullifier>, members: set<Nullifier>)
    requires IsSortedListing(a, members) && IsSortedListing(b, members)
    ensures |a| == 0 <==> |b| == 0
  {
    if |a| > 0 {
      assert a[0] in members;
    }
    if |b| > 0 {
      assert b[0] in members;
    }
  }

  /** A finite set has exactly one strictly sorted listing. */
  lemma {:induction false} SortedListingUnique(a: seq<Nullifier>, b: seq<Nullifier>, members: set<Nullifier>)
    requires IsSortedListing(a, members) && IsSortedListing(b, members)
    ensures a == b
    decreases |a|
  {
    ListingsEmptyTogether(a, b, members);
    if |a| > 0 {
      if a[0] != b[0] {
        assert a[0] in b && b[0] in a;
        var i :| 0 <= i < |b| && b[i] == a[0];
        var j :| 0 <= j < |a| && a[j] == b[0];
        assert i > 0 && j > 0;
        LexIrreflexive(a[0], b[0]);
        assert false;
      }
      var m := members - {a[0]};
      forall x
        ensures x in a[1..] <==> x in m
      {
        if x in a[1..] {
          var k :| 0 <= k < |a[1..]| && a[1..][k] == x;
          LexIrreflexive(a[0], a[k + 1]);
        }
      }
      forall x
        ensures x in b[1..] <==> x in m
      {
        if x in b[1..] {
          var k :| 0 <= k < |b[1..]| && b[1..][k] == x;
          LexIrreflexive(b[0], b[k + 1]);
        }
      }
      SortedListingUnique(a[1..], b[1..], m);
      assert a == [a[0]] + a[1..] && b == [b[0]] + b[1..];
    }
  }

  /** `root_hash`: the members, sorted by their bytes, fed one by one to a
      hasher primed with "PRIVL1_NULLIFIER_ROOT". The sorted listing is
      returned alongside, and is the only sorted listing of the members, so
      the hash depends on membership alone and not on insertion order. */
  method RootHash(blake3: Blake3Fn, p: PersistentNullifierSet) returns (h: Digest, sorted: seq<Nullifier>)
    ensures IsSortedListing(sorted, p.inner.spent)
    ensures h == blake3(Ascii(NULLIFIER_ROOT_TAG) + [0] + Concat(sorted))
  {
    var listing := AllNullifiers(p.inner);
    sorted := SortLex(listing);
    var d := NewDomainHasher(Ascii(NULLIFIER_ROOT_TAG));
    var i := 0;
    while i < |sorted|
      invariant 0 <= i <= |sorted|
      invariant d.state.absorbed == Ascii(NULLIFIER_ROOT_TAG) + [0] + Concat(sorted[..i])
    {
      ConcatSnoc(sorted[..i], sorted[i]);
      assert sorted[..i + 1] == sorted[..i] + [sorted[i]];
      d := DomainUpdate(d, sorted[i]);
      i := i + 1;
    }
    assert sorted[..i] == sorted;
    h := DomainFinalize(blake3, d);
  }

  lemma {:induction false} ConcatSnoc(parts: seq<Bytes>, x: Bytes)
    ensures Concat(parts + [x]) == Concat(parts) + x
    decreases |parts|
  {
    if |parts| == 0 {
      assert parts + [x] == [x];
    } else {
      assert (parts + [x])[1..] == parts[1..] + [x];
      ConcatSnoc(parts[1..], x);
    }
  }

  /** Two persistent sets with the same members have the same fingerprint,
      whichever sorted listings the two computations return. */
  lemma RootHashDependsOnMembership(blake3: Blake3Fn, a: seq<Nullifier>, b: seq<Nullifier>, members: set<Nullifier>)
    requires IsSortedListing(a, members) && IsSortedListing(b, members)
    ensures blake3(Ascii(NULLIFIER_ROOT_TAG) + [0] + Concat(a)) == blake3(Ascii(NULLIFIER_ROOT_TAG) + [0] + Concat(b))
  {
    SortedListingUnique(a, b, members);
  }
}
