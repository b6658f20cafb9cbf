/** The repeated-augmentation sampler (RASampler of training/sampler.py): which dataset indices each rank draws. */
module Sampler {
  import opened Floats
  import opened Words
  import opened Wrappers

  // ---------- the sizes ----------

  function NumSamples(size: nat, replicas: nat, repetitions: nat): nat
    requires replicas > 0
  {
    (size * repetitions + replicas - 1) / replicas
  }

  function NumSelected(size: nat, replicas: nat): nat
    requires replicas > 0
  {
    size / 256 * 256 / replicas
  }

  /** The size formulas in floating point come out exact. */
  method RoundedSamples(size: nat, replicas: nat, repetitions: nat, round: real -> real) returns (samples: nat)
    requires 0 < replicas <= TWO_53 && IsRounding(round) && size * repetitions < TWO_53
    ensures samples == NumSamples(size, replicas, repetitions)
  {
    hide ToReal, IsRounding, Ratio, Ceiling;
    ExactProduct(round, size, repetitions);
    RoundedQuotient(round, size * repetitions, replicas);
    samples := Ceiling(round(Ratio(round(ToReal(size) * ToReal(repetitions)), replicas)));
  }

  method RoundedSelected(size: nat, replicas: nat, round: real -> real) returns (selected: nat)
    requires 0 < replicas <= TWO_53 && IsRounding(round) && size < TWO_53
    ensures selected == NumSelected(size, replicas)
  {
    hide ToReal, IsRounding, Ratio, Ceiling;
    var whole := size / 256 * 256;
    RoundedQuotient(round, whole, replicas);
    selected := round(Ratio(ToReal(whole), replicas)).Floor;
  }

  /** Every element `repetitions` times in a row. */
  function Repeat(xs: seq<nat>, repetitions: nat): (ys: seq<nat>)
    ensures |ys| == Slot(repetitions, |xs|, 0)
  {
    if xs == [] then []
    else Repeat(xs[..|xs| - 1], repetitions) + seq(repetitions, _ => xs[|xs| - 1])
  }

  /** A list extended from its own beginning; a slice past its end stops at the end. */
  function Pad(xs: seq<nat>, total: nat): seq<nat> {
    if total <= |xs| then xs else xs + xs[..if total - |xs| <= |xs| then total - |xs| else |xs|]
  }

  /** The place in the padded list of the p-th index of a rank. */
  function Slot(replicas: nat, p: nat, rank: nat): nat {
    p * replicas + rank
  }

  lemma SlotStep(replicas: nat, p: nat, rank: nat)
    ensures Slot(replicas, p + 1, 0) == Slot(replicas, p, 0) + replicas
    ensures Slot(replicas, p, rank) == Slot(replicas, p, 0) + rank
    ensures Slot(replicas, 0, 0) == 0
  {
  }

  /** Every `replicas`-th element from position `rank` on, `count` of them. */
  function RankSlice(xs: seq<nat>, replicas: nat, rank: nat, count: nat): (ys: seq<nat>)
    requires rank < replicas && Slot(replicas, count, 0) <= |xs|
    ensures |ys| == count
  {
    seq(count, p requires 0 <= p < count => SlotInside(replicas, rank, p, count); xs[Slot(replicas, p, rank)])
  }

  lemma SlotInside(replicas: nat, rank: nat, p: nat, count: nat)
    requires rank < replicas && p < count
    ensures Slot(replicas, p, rank) < Slot(replicas, count, 0)
  {
    MulMono(replicas, p + 1, count);
  }

  class RASampler {
    const size: nat
    const numReplicas: nat
    const rank: nat
    const repetitions: nat
    const numSamples: nat
    const totalSize: nat
    const numSelected: nat
    const shuffle: bool
    const seed: int
    var epoch: int

    ghost predicate Valid() {
      && rank < numReplicas && numSamples == NumSamples(size, numReplicas, repetitions)
      && totalSize == numSamples * numReplicas && numSelected == NumSelected(size, numReplicas)
    }

    /** The sizes are computed in floating point and come out exact. */
    constructor (size: nat, numReplicas: nat, rank: nat, shuffle: bool, seed: int, repetitions: nat,
                 round: real -> real)
      requires rank < numReplicas <= TWO_53 && IsRounding(round) && size < TWO_53 && size * repetitions < TWO_53
      ensures Valid() && epoch == 0
      ensures this.size == size && this.numReplicas == numReplicas && this.rank == rank
      ensures this.shuffle == shuffle && this.seed == seed && this.repetitions == repetitions
    {
      this.size, this.numReplicas, this.rank, this.shuffle, this.seed := size, numReplicas, rank, shuffle, seed;
      this.repetitions, this.epoch := repetitions, 0;
      hide NumSamples, NumSelected, IsRounding;
      var samples := RoundedSamples(size, numReplicas, repetitions, round);
      this.numSamples, this.totalSize := samples, samples * numReplicas;
      var selected := RoundedSelected(size, numReplicas, round);
      this.numSelected := selected;
    }

    method SetEpoch(epoch: int)
      modifies this
      ensures this.epoch == epoch
    {
      this.epoch := epoch;
    }

    /** The order the dataset is visited in; the shuffle is a function of seed plus epoch. */
    function Order(randperm: int -> seq<nat>): seq<nat>
      reads this
    {
      if shuffle then randperm(seed + epoch) else seq(size, i => i)
    }

    /** The indices this rank draws in an epoch, or the failed length check. */
    method Iter(randperm: int -> seq<nat>) returns (r: Result<seq<nat>>)
      requires Valid() && |randperm(seed + epoch)| == size
      ensures r == Drawn(Order(randperm), numReplicas, rank, repetitions, numSelected)
    {
      var order := if shuffle then randperm(seed + epoch) else seq(size, i => i);
      assert order == Order(randperm);
      var indices := RepeatEach(order);
      CeilingCovers(size * repetitions, numReplicas);
      var missing := totalSize - |indices|;
      indices := indices + indices[..if missing <= |indices| then missing else |indices|];
      assert indices == Pad(Repeat(order, repetitions), totalSize);
      if |indices| != totalSize {
        return Fail;
      }
      var mine := TakeMine(indices);
      return Ok(mine[..if numSelected <= |mine| then numSelected else |mine|]);
    }

    method RepeatEach(order: seq<nat>) returns (indices: seq<nat>)
      ensures indices == Repeat(order, repetitions)
    {
      indices := [];
      for k := 0 to |order|
        invariant indices == Repeat(order[..k], repetitions)
      {
        assert order[..k + 1][..k] == order[..k];
        var copies: seq<nat> := [];
        for i := 0 to repetitions
          invariant copies == seq(i, _ => order[k])
        {
          copies := copies + [order[k]];
        }
        indices := indices + copies;
      }
      assert order[..|order|] == order;
    }

    method TakeMine(indices: seq<nat>) returns (mine: seq<nat>)
      requires Valid() && |indices| == totalSize
      ensures mine == RankSlice(indices, numReplicas, rank, numSamples)
    {
      mine := [];
      while |mine| < numSamples
        invariant |mine| <= numSamples
        invariant forall x :: 0 <= x < |mine| ==> mine[x] == RankSlice(indices, numReplicas, rank, numSamples)[x]
      {
        SlotInside(numReplicas, rank, |mine|, numSamples);
        mine := mine + [indices[Slot(numReplicas, |mine|, rank)]];
      }
    }
  }

  // ---------- the order of an epoch ----------

  /** Every index below n, once. */
  ghost predicate HoldsAllOnce(order: seq<nat>, n: nat) {
    |order| == n && forall i: nat :: i < n ==> multiset(order)[i] == 1
  }

  lemma {:induction false} IdentityHoldsAll(n: nat)
    ensures HoldsAllOnce(seq(n, i => i), n)
    ensures multiset(seq(n, i => i))[n] == 0
  {
    var order := seq(n, i => i);
    if n > 0 {
      IdentityHoldsAll(n - 1);
      var before := seq(n - 1, i => i);
      assert order == before + [n - 1];
      assert n !in order;
    }
  }

  /** The order of every epoch holds every index once, if the shuffle's does; an unshuffled order is the indices
      themselves. */
  lemma OrderHoldsAllOnce(sampler: RASampler, randperm: int -> seq<nat>)
    requires sampler.shuffle ==> HoldsAllOnce(randperm(sampler.seed + sampler.epoch), sampler.size)
    ensures HoldsAllOnce(sampler.Order(randperm), sampler.size)
    ensures !sampler.shuffle ==> forall i :: 0 <= i < sampler.size ==> sampler.Order(randperm)[i] == i
  {
    IdentityHoldsAll(sampler.size);
  }

  /** Two shuffling samplers are sure to visit the data in the same order exactly when their seeds plus epochs agree: so
      the ranks of one run share each epoch's order, and setting the epoch is what changes it. */
  lemma SameOrderIff(s: RASampler, t: RASampler)
    requires s.shuffle && t.shuffle
    ensures (forall randperm: int -> seq<nat> :: s.Order(randperm) == t.Order(randperm))
      <==> s.seed + s.epoch == t.seed + t.epoch
  {
    var key := s.seed + s.epoch;
    var onlyHere: int -> seq<nat> := k => if k == key then [0] else [];
    assert s.Order(onlyHere) == [0];
  }

  lemma CeilingCovers(v: nat, m: nat)
    requires m > 0
    ensures v <= (v + m - 1) / m * m < v + m
  {
  }

  /** What a rank draws: its slice of the padded list, cut to the selected length. */
  function Drawn(order: seq<nat>, replicas: nat, rank: nat, repetitions: nat, selected: nat): Result<seq<nat>>
    requires rank < replicas
  {
    var samples := NumSamples(|order|, replicas, repetitions);
    var padded := Pad(Repeat(order, repetitions), samples * replicas);
    if |padded| != samples * replicas then Fail
    else Ok(RankSlice(padded, replicas, rank, samples)[..if selected <= samples then selected else samples])
  }

  // ---------- the ranks share the work ----------

  /** The padding needed is no longer than the repeated list. */
  predicate LendsPadding(order: seq<nat>, replicas: nat, repetitions: nat)
    requires replicas > 0
  {
    var have := |order| * repetitions;
    NumSamples(|order|, replicas, repetitions) * replicas - have <= have
  }

  /** The drawing fails exactly when the list is too short to lend its own missing elements. */
  lemma DrawnUnlessShort(order: seq<nat>, replicas: nat, rank: nat, repetitions: nat, selected: nat)
    requires rank < replicas
    ensures Drawn(order, replicas, rank, repetitions, selected).Ok? <==> LendsPadding(order, replicas, repetitions)
  {
  }

  /** One sample drawn once by three ranks: the list has one element and needs two more. */
  lemma ShortListFails(sample: nat, rank: nat, selected: nat)
    requires rank < 3
    ensures Drawn([sample], 3, rank, 1, selected) == Fail
  {
    DrawnUnlessShort([sample], 3, rank, 1, selected);
  }

  /** At least R - 1 repeated elements are always enough. */
  lemma EnoughToPad(order: seq<nat>, replicas: nat, rank: nat, repetitions: nat, selected: nat)
    requires rank < replicas && |order| * repetitions >= replicas - 1
    ensures Drawn(order, replicas, rank, repetitions, selected).Ok?
  {
    DrawnUnlessShort(order, replicas, rank, repetitions, selected);
    CeilingCovers(|order| * repetitions, replicas);
  }

  /** The elements of the first k ranks, counted with multiplicity. */
  function Together(xs: seq<nat>, replicas: nat, count: nat, k: nat): multiset<nat>
    requires k <= replicas && Slot(replicas, count, 0) <= |xs|
  {
    if k == 0 then multiset{}
    else Together(xs, replicas, count, k - 1) + multiset(RankSlice(xs, replicas, k - 1, count))
  }

  lemma SliceGrows(xs: seq<nat>, replicas: nat, rank: nat, count: nat)
    requires rank < replicas && Slot(replicas, count + 1, 0) <= |xs|
    ensures Slot(replicas, count, 0) <= |xs| && Slot(replicas, count, rank) < |xs|
    ensures RankSlice(xs, replicas, rank, count + 1)
         == RankSlice(xs, replicas, rank, count) + [xs[Slot(replicas, count, rank)]]
    ensures multiset(RankSlice(xs, replicas, rank, count + 1))
         == multiset(RankSlice(xs, replicas, rank, count)) + multiset{xs[Slot(replicas, count, rank)]}
  {
  }

  lemma {:induction false} TogetherGrows(xs: seq<nat>, replicas: nat, count: nat, k: nat)
    requires k <= replicas && Slot(replicas, count + 1, 0) <= |xs|
    ensures Slot(replicas, count, 0) + k <= |xs|
    ensures Together(xs, replicas, count + 1, k) == Together(xs, replicas, count, k) + RowBag(xs, replicas, count, k)
  {
    hide RankSlice, Slot, RowBag;
    SlotStep(replicas, count, 0);
    if k == 0 {
      EmptyRow(xs, replicas, count);
    } else {
      TogetherGrows(xs, replicas, count, k - 1);
      var x := RowGrows(xs, replicas, count, k);
      Rearrange(Together(xs, replicas, count, k - 1), multiset(RankSlice(xs, replicas, k - 1, count)),
                RowBag(xs, replicas, count, k - 1), x);
    }
  }

  /** The first k elements of row `count`. */
  function RowBag(xs: seq<nat>, replicas: nat, count: nat, k: nat): multiset<nat>
    requires Slot(replicas, count, 0) + k <= |xs|
  {
    multiset(xs[Slot(replicas, count, 0)..Slot(replicas, count, 0) + k])
  }

  lemma EmptyRow(xs: seq<nat>, replicas: nat, count: nat)
    requires Slot(replicas, count, 0) <= |xs|
    ensures RowBag(xs, replicas, count, 0) == multiset{}
  {
  }

  /** The k-th element of a row is the next element of rank k-1. */
  lemma RowGrows(xs: seq<nat>, replicas: nat, count: nat, k: nat) returns (x: nat)
    requires 0 < k <= replicas && Slot(replicas, count + 1, 0) <= |xs|
    ensures Slot(replicas, count, 0) + k <= |xs|
    ensures RowBag(xs, replicas, count, k) == RowBag(xs, replicas, count, k - 1) + multiset{x}
    ensures multiset(RankSlice(xs, replicas, k - 1, count + 1))
         == multiset(RankSlice(xs, replicas, k - 1, count)) + multiset{x}
  {
    hide RankSlice, Slot;
    SlotStep(replicas, count, 0);
    SlotStep(replicas, count, k - 1);
    SliceGrows(xs, replicas, k - 1, count);
    NextElement(xs, Slot(replicas, count, 0), k);
    x := xs[Slot(replicas, count, k - 1)];
  }

  lemma Rearrange(rest: multiset<nat>, slice: multiset<nat>, row: multiset<nat>, x: nat)
    ensures (rest + row) + (slice + multiset{x}) == (rest + slice) + (row + multiset{x})
  {
  }

  lemma NextElement(xs: seq<nat>, at: nat, k: nat)
    requires 0 < k && at + k <= |xs|
    ensures multiset(xs[at..at + k]) == multiset(xs[at..at + k - 1]) + multiset{xs[at + k - 1]}
  {
    assert xs[at..at + k] == xs[at..at + k - 1] + [xs[at + k - 1]];
  }

  /** The slices of all ranks together are the first count * R elements: none is lost, none drawn by two ranks. */
  lemma {:induction false} RanksPartition(xs: seq<nat>, replicas: nat, count: nat)
    requires Slot(replicas, count, 0) <= |xs|
    ensures Together(xs, replicas, count, replicas) == multiset(xs[..Slot(replicas, count, 0)])
  {
    hide Slot, Together, RankSlice;
    SlotStep(replicas, 0, 0);
    if count == 0 {
      NothingTogether(xs, replicas, replicas);
    } else {
      SlotStep(replicas, count - 1, 0);
      var at := Slot(replicas, count - 1, 0);
      RanksPartition(xs, replicas, count - 1);
      TogetherGrows(xs, replicas, count - 1, replicas);
      assert RowBag(xs, replicas, count - 1, replicas) == multiset(xs[at..at + replicas]);
      assert xs[..at + replicas] == xs[..at] + xs[at..at + replicas];
    }
  }

  lemma {:induction false} NothingTogether(xs: seq<nat>, replicas: nat, k: nat)
    requires k <= replicas
    ensures Together(xs, replicas, 0, k) == multiset{}
  {
    if k > 0 {
      NothingTogether(xs, replicas, k - 1);
    }
  }

  /** The selected prefix of a rank's slice is the rank's slice of a prefix. */
  lemma PrefixOfSlice(xs: seq<nat>, replicas: nat, rank: nat, count: nat, selected: nat)
    requires rank < replicas && selected <= count && Slot(replicas, count, 0) <= |xs|
    ensures Slot(replicas, selected, 0) <= |xs|
    ensures RankSlice(xs, replicas, rank, count)[..selected] == RankSlice(xs, replicas, rank, selected)
  {
  }

  lemma SelectedFits(size: nat, replicas: nat, repetitions: nat)
    requires replicas > 0 && repetitions > 0
    ensures NumSelected(size, replicas) <= NumSamples(size, replicas, repetitions)
    ensures NumSelected(size, replicas) * replicas <= size
  {
    var chosen := size / 256 * 256;
    var s := NumSelected(size, replicas);
    assert s * replicas <= chosen <= size;
    MulMono(size, 1, repetitions);
    CeilingCovers(size * repetitions, replicas);
    MulMono(replicas, NumSamples(size, replicas, repetitions) + 1, s);
  }

  /** The padded list all ranks slice. */
  function Padded(order: seq<nat>, replicas: nat, repetitions: nat): seq<nat>
    requires replicas > 0
  {
    Pad(Repeat(order, repetitions), NumSamples(|order|, replicas, repetitions) * replicas)
  }

  lemma PaddedLength(order: seq<nat>, replicas: nat, repetitions: nat)
    requires replicas > 0
    requires LendsPadding(order, replicas, repetitions)
    ensures |Padded(order, replicas, repetitions)| == Slot(replicas, NumSamples(|order|, replicas, repetitions), 0)
  {
  }

  /** A rank draws its slice of the first R * num_selected entries. */
  lemma RankDraws(order: seq<nat>, replicas: nat, rank: nat, repetitions: nat)
    requires rank < replicas && repetitions > 0
    requires LendsPadding(order, replicas, repetitions)
    ensures var selected := NumSelected(|order|, replicas);
      var padded := Padded(order, replicas, repetitions);
      && Slot(replicas, selected, 0) <= |padded|
      && Drawn(order, replicas, rank, repetitions, selected) == Ok(RankSlice(padded, replicas, rank, selected))
  {
    PaddedLength(order, replicas, repetitions);
    SelectedFits(|order|, replicas, repetitions);
    PrefixOfSlice(Padded(order, replicas, repetitions), replicas, rank, NumSamples(|order|, replicas, repetitions),
                  NumSelected(|order|, replicas));
    hide Pad, Repeat, RankSlice, NumSelected;
  }

  /** The whole slices partition the padded list among the ranks, and what the ranks draw in an epoch is exactly the
      first R * num_selected entries of it, each drawn once. */
  lemma RanksShareList(order: seq<nat>, replicas: nat, repetitions: nat)
    requires replicas > 0 && repetitions > 0
    requires LendsPadding(order, replicas, repetitions)
    ensures var samples, selected := NumSamples(|order|, replicas, repetitions), NumSelected(|order|, replicas);
      var padded := Padded(order, replicas, repetitions);
      && |padded| == Slot(replicas, samples, 0) && Slot(replicas, selected, 0) <= |padded|
      && Together(padded, replicas, samples, replicas) == multiset(padded)
      && Together(padded, replicas, selected, replicas) == multiset(padded[..Slot(replicas, selected, 0)])
  {
    var samples, selected := NumSamples(|order|, replicas, repetitions), NumSelected(|order|, replicas);
    var padded := Padded(order, replicas, repetitions);
    PaddedLength(order, replicas, repetitions);
    RankDraws(order, replicas, 0, repetitions);
    hide *;
    RanksPartition(padded, replicas, samples);
    RanksPartition(padded, replicas, selected);
    assert padded[..|padded|] == padded;
  }

  // ---------- copies of one sample ----------

  lemma RepeatAt(xs: seq<nat>, repetitions: nat, i: nat, a: nat)
    requires i < |xs| && a < repetitions
    ensures Slot(repetitions, i, a) < Slot(repetitions, |xs|, 0)
    ensures Repeat(xs, repetitions)[Slot(repetitions, i, a)] == xs[i]
  {
    hide Slot;
    SlotInside(repetitions, a, i, |xs|);
    SlotStep(repetitions, |xs|, 0);
    SlotStep(repetitions, |xs| - 1, 0);
    if i < |xs| - 1 {
      RepeatAt(xs[..|xs| - 1], repetitions, i, a);
    } else {
      SlotStep(repetitions, i, a);
    }
  }

  /** With at most R repetitions, the copies of one sample have places with different remainders. */
  lemma CopiesApart(order: seq<nat>, replicas: nat, repetitions: nat, i: nat, a: nat, b: nat)
    requires 0 < repetitions <= replicas && i < |order| && a < b < repetitions
    requires LendsPadding(order, replicas, repetitions)
    ensures var padded := Padded(order, replicas, repetitions);
      var p, q := Slot(repetitions, i, a), Slot(repetitions, i, b);
      p < |padded| && q < |padded| && padded[p] == padded[q] == order[i] && p % replicas != q % replicas
  {
    CeilingCovers(|order| * repetitions, replicas);
    RepeatAt(order, repetitions, i, a);
    RepeatAt(order, repetitions, i, b);
    PaddedLength(order, replicas, repetitions);
    SlotStep(repetitions, i, a);
    SlotStep(repetitions, i, b);
    DifferentResidues(replicas, Slot(repetitions, i, a), Slot(repetitions, i, b));
  }

  /** The copy of sample i at place p of the padded list is entry p / R of rank p % R; copies of one sample are entries
      of different ranks, and a rank draws its copy when the entry is among its selected ones. */
  lemma CopiesGoToDifferentRanks(order: seq<nat>, replicas: nat, repetitions: nat, i: nat, a: nat, b: nat)
    requires 0 < repetitions <= replicas && i < |order| && a < repetitions && b < repetitions && a != b
    requires LendsPadding(order, replicas, repetitions)
    ensures RankOf(replicas, repetitions, i, a) != RankOf(replicas, repetitions, i, b)
    ensures HasCopy(order, replicas, repetitions, i, a) && HasCopy(order, replicas, repetitions, i, b)
  {
    hide Slot, LendsPadding, Padded, HasCopy;
    if a < b {
      CopiesApart(order, replicas, repetitions, i, a, b);
    } else {
      CopiesApart(order, replicas, repetitions, i, b, a);
    }
    CopyInSlice(order, replicas, repetitions, i, a);
    CopyInSlice(order, replicas, repetitions, i, b);
  }

  /** The rank whose slice has copy a of sample i. */
  function RankOf(replicas: nat, repetitions: nat, i: nat, a: nat): (rank: nat)
    requires replicas > 0
    ensures rank < replicas
  {
    Slot(repetitions, i, a) % replicas
  }

  /** Entry e of a rank's slice of the padded list is v, and the rank draws it when e is selected. */
  ghost predicate EntryIs(order: seq<nat>, replicas: nat, repetitions: nat, rank: nat, e: nat, v: nat)
    requires rank < replicas
  {
    var samples, selected := NumSamples(|order|, replicas, repetitions), NumSelected(|order|, replicas);
    var padded := Padded(order, replicas, repetitions);
    && e < samples && Slot(replicas, samples, 0) <= |padded|
    && RankSlice(padded, replicas, rank, samples)[e] == v
    && var drawn := Drawn(order, replicas, rank, repetitions, selected);
       drawn.Ok? && |drawn.value| == selected && (e < selected ==> drawn.value[e] == v)
  }

  /** Copy a of sample i is where it should be. */
  ghost predicate HasCopy(order: seq<nat>, replicas: nat, repetitions: nat, i: nat, a: nat)
    requires replicas > 0 && i < |order|
  {
    EntryIs(order, replicas, repetitions, RankOf(replicas, repetitions, i, a), Slot(repetitions, i, a) / replicas,
            order[i])
  }

  lemma CopyInSlice(order: seq<nat>, replicas: nat, repetitions: nat, i: nat, a: nat)
    requires 0 < repetitions <= replicas && i < |order| && a < repetitions
    requires LendsPadding(order, replicas, repetitions)
    ensures HasCopy(order, replicas, repetitions, i, a)
  {
    var samples, rank := NumSamples(|order|, replicas, repetitions), RankOf(replicas, repetitions, i, a);
    var p := Slot(repetitions, i, a);
    hide NumSamples, NumSelected, Padded, Drawn, LendsPadding, Slot;
    PaddedLength(order, replicas, repetitions);
    CopyPlaced(order, replicas, repetitions, i, a);
    PlaceInRank(replicas, p, samples);
    EntryAt(order, replicas, repetitions, rank, p / replicas);
  }

  /** A rank's slice, and what it draws, at entry e. */
  lemma EntryAt(order: seq<nat>, replicas: nat, repetitions: nat, rank: nat, e: nat)
    requires rank < replicas && repetitions > 0 && LendsPadding(order, replicas, repetitions)
    requires e < NumSamples(|order|, replicas, repetitions)
    ensures Slot(replicas, e, rank) < |Padded(order, replicas, repetitions)|
    ensures EntryIs(order, replicas, repetitions, rank, e,
                    Padded(order, replicas, repetitions)[Slot(replicas, e, rank)])
  {
    hide NumSamples, NumSelected, Padded, Drawn, LendsPadding, Slot;
    PaddedLength(order, replicas, repetitions);
    SlotInside(replicas, rank, e, NumSamples(|order|, replicas, repetitions));
    RankDraws(order, replicas, rank, repetitions);
  }

  lemma PlaceInRank(replicas: nat, p: nat, samples: nat)
    requires replicas > 0 && p < Slot(replicas, samples, 0)
    ensures p / replicas < samples && Slot(replicas, p / replicas, p % replicas) == p
  {
    MulMono(replicas, samples, p / replicas);
  }

  lemma CopyPlaced(order: seq<nat>, replicas: nat, repetitions: nat, i: nat, a: nat)
    requires 0 < repetitions && replicas > 0 && i < |order| && a < repetitions
    requires LendsPadding(order, replicas, repetitions)
    ensures Slot(repetitions, i, a) < |Padded(order, replicas, repetitions)|
    ensures Padded(order, replicas, repetitions)[Slot(repetitions, i, a)] == order[i]
  {
    CeilingCovers(|order| * repetitions, replicas);
    RepeatAt(order, repetitions, i, a);
    PaddedLength(order, replicas, repetitions);
  }

  /** What the ranks draw together is a prefix of the repeated list: no rank ever draws padding. */
  lemma NoPaddingDrawn(order: seq<nat>, replicas: nat, repetitions: nat)
    requires replicas > 0 && repetitions > 0
    requires LendsPadding(order, replicas, repetitions)
    ensures var drawn := Slot(replicas, NumSelected(|order|, replicas), 0);
      && drawn <= |order| <= |Repeat(order, repetitions)|
      && drawn <= |Padded(order, replicas, repetitions)|
      && Padded(order, replicas, repetitions)[..drawn] == Repeat(order, repetitions)[..drawn]
  {
    SelectedFits(|order|, replicas, repetitions);
    PaddedLength(order, replicas, repetitions);
    CeilingCovers(|order| * repetitions, replicas);
    MulMono(|order|, 1, repetitions);
    hide Repeat, NumSelected, NumSamples;
  }

  lemma DifferentResidues(m: nat, p: nat, q: nat)
    requires p < q < p + m
    ensures p % m != q % m
  {
    var i, j := p / m, q / m;
    assert p == i * m + p % m;
    assert q == j * m + q % m;
    ProductGap(m, i, j);
  }

  /** Different multiples of m are at least m apart. */
  lemma ProductGap(m: int, i: int, j: int)
    requires m > 0
    ensures i < j ==> j * m - i * m >= m
    ensures i >= j ==> j * m - i * m <= 0
  {
    MulMono(m, i + 1, j);
    MulMono(m, j, i);
  }
}
