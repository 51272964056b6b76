/** Choosing the questions of one exam from a chapter's bank (pages/ExamPage.tsx:86-92).
    The page shuffles a copy of the bank with a random comparator; the model takes the
    shuffled copy as an input, related to the bank only by being a permutation of it. */
module ExamSelection {
  import opened Types

  /** The page's hard-coded exam size. */
  const ExamSize: nat := 25

  /** The shuffle's only guarantee: same questions, same multiplicities. */
  ghost predicate IsPermutation(shuffled: seq<Question>, bank: seq<Question>)
  {
    multiset(shuffled) == multiset(bank)
  }

  /** Keeps the first `limit` shuffled questions when there are at least `limit`,
      and all of them otherwise. */
  function SelectExam(shuffled: seq<Question>, limit: nat): (r: seq<Question>)
    ensures |r| == if |shuffled| >= limit then limit else |shuffled|
    ensures |r| <= limit && |r| <= |shuffled|
    ensures r == shuffled[..|r|]
  {
    if |shuffled| >= limit then shuffled[..limit] else shuffled
  }

  /** The exam the page builds. */
  function BuildExam(shuffled: seq<Question>): (r: seq<Question>)
    ensures |r| == if |shuffled| >= ExamSize then ExamSize else |shuffled|
  {
    SelectExam(shuffled, ExamSize)
  }

  lemma {:induction false} PrefixSubMultiset(s: seq<Question>, k: nat)
    requires k <= |s|
    ensures multiset(s[..k]) <= multiset(s)
  {
    calc {
      multiset(s);
      == { assert s == s[..k] + s[k..]; }
      multiset(s[..k] + s[k..]);
      ==
      multiset(s[..k]) + multiset(s[k..]);
    }
  }

  /** Every selected question comes from the bank, no more often than it occurs there. */
  lemma SelectionDrawnFromBank(bank: seq<Question>, shuffled: seq<Question>, limit: nat)
    requires IsPermutation(shuffled, bank)
    ensures multiset(SelectExam(shuffled, limit)) <= multiset(bank)
    ensures forall q :: q in SelectExam(shuffled, limit) ==> q in bank
  {
    var r := SelectExam(shuffled, limit);
    PrefixSubMultiset(shuffled, |r|);
    forall q | q in r ensures q in bank {
      assert q in multiset(r);
    }
  }

  /** A bank smaller than the limit is used whole: the exam is a permutation of it. */
  lemma SmallBankUsedWhole(bank: seq<Question>, shuffled: seq<Question>, limit: nat)
    requires IsPermutation(shuffled, bank)
    requires |bank| < limit
    ensures IsPermutation(SelectExam(shuffled, limit), bank)
  {
  }

  /** A bank of at least `limit` questions gives exactly `limit` of them; the exam is
      never padded. */
  lemma LargeBankTruncated(bank: seq<Question>, shuffled: seq<Question>, limit: nat)
    requires IsPermutation(shuffled, bank)
    requires |bank| >= limit
    ensures |SelectExam(shuffled, limit)| == limit
  {
    assert |shuffled| == |multiset(shuffled)| == |multiset(bank)| == |bank|;
  }

  /** Removing one position keeps the ids of the remaining positions distinct and
      removes exactly one copy of that question. */
  lemma {:induction false} DropOne(b: seq<Question>, k: nat)
    requires k < |b| && DistinctIds(b)
    ensures DistinctIds(b[..k] + b[k + 1..])
    ensures forall y :: y in b[..k] + b[k + 1..] ==> y.id != b[k].id
    ensures multiset(b[..k] + b[k + 1..]) == multiset(b) - multiset{b[k]}
  {
    var c := b[..k] + b[k + 1..];
    assert forall i :: 0 <= i < |c| ==> c[i] == b[if i < k then i else i + 1];
    forall y | y in c ensures y.id != b[k].id {
      var i :| 0 <= i < |c| && c[i] == y;
    }
    assert b == b[..k] + [b[k]] + b[k + 1..];
    assert multiset(b) == multiset(b[..k]) + multiset{b[k]} + multiset(b[k + 1..]);
  }

  /** A permutation of a bank whose ids are distinct has distinct ids. */
  lemma {:induction false} PermutationKeepsDistinct(a: seq<Question>, b: seq<Question>)
    requires multiset(a) == multiset(b) && DistinctIds(b)
    ensures DistinctIds(a)
    decreases |a|
  {
    if a != [] {
      var x, rest := a[0], a[1..];
      assert x in multiset(b);
      var k :| 0 <= k < |b| && b[k] == x;
      var b' := b[..k] + b[k + 1..];
      DropOne(b, k);
      assert a == [x] + rest;
      assert multiset(rest) == multiset(b');
      PermutationKeepsDistinct(rest, b');
      forall i, j | 0 <= i < j < |a| ensures a[i].id != a[j].id {
        if i == 0 {
          assert a[j] == rest[j - 1];
          assert rest[j - 1] in multiset(rest);
        } else {
          assert a[i] == rest[i - 1] && a[j] == rest[j - 1];
        }
      }
    }
  }

  /** The exam drawn from a bank with distinct ids has distinct ids. */
  lemma SelectionKeepsDistinctIds(bank: seq<Question>, shuffled: seq<Question>, limit: nat)
    requires IsPermutation(shuffled, bank) && DistinctIds(bank)
    ensures DistinctIds(SelectExam(shuffled, limit))
  {
    PermutationKeepsDistinct(shuffled, bank);
  }
}
