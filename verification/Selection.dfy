/** Selecting one PDR among those that match, and presenting the candidates in ID order. */
module Selection {
  import opened Types
  import opened Rules
  import opened Matcher
  import Validation

  // ----- The winner

  /** The first matching PDR of least precedence. */
  function Winner(pdrs: seq<Pdr>, packet: Packet): (r: Option<Pdr>)
    ensures r.None? ==> forall p | p in pdrs :: !Matches(p, packet)
    ensures r.Some? ==> r.value in pdrs && Matches(r.value, packet)
    ensures r.Some? ==> forall p | p in pdrs && Matches(p, packet) :: r.value.precedence <= p.precedence
  {
    if pdrs == [] then None
    else
      var last := pdrs[|pdrs| - 1];
      var w := Winner(pdrs[..|pdrs| - 1], packet);
      assert forall p | p in pdrs :: p in pdrs[..|pdrs| - 1] || p == last;
      if Matches(last, packet) && (w.None? || last.precedence < w.value.precedence) then Some(last) else w
  }

  /** `w` is the only admissible winner: it matches and beats every other matching PDR strictly. */
  ghost predicate BeatsAll(pdrs: seq<Pdr>, packet: Packet, w: Pdr) {
    && w in pdrs
    && Matches(w, packet)
    && forall p | p in pdrs && Matches(p, packet) && p != w :: w.precedence < p.precedence
  }

  // Under a validated ruleset selection is by precedence alone: a PDR wins exactly when it strictly beats every
  // other PDR that matches, so ties and list order play no part.
  lemma WinnerIffBeatsAll(rules: RuleSet, limits: CapacityLimits, packet: Packet, w: Pdr)
    requires Validation.Accepted(rules, limits)
    ensures Winner(rules.pdrs, packet) == Some(w) <==> BeatsAll(rules.pdrs, packet, w)
  {
    var r := Winner(rules.pdrs, packet);
    if r == Some(w) {
      forall p | p in rules.pdrs && Matches(p, packet) && p != w
        ensures w.precedence < p.precedence
      {
        if w.precedence == p.precedence {
          Validation.EqualPrecedenceMatchesAreEqual(rules, limits, packet, w, p);
        }
      }
    }
    if BeatsAll(rules.pdrs, packet, w) {
      assert r.Some? && r.value.precedence <= w.precedence;
    }
  }

  lemma WinnerPermuted(a: RuleSet, b: RuleSet, limits: CapacityLimits, packet: Packet)
    requires PermutedRules(a, b) && Validation.Accepted(a, limits)
    ensures Winner(a.pdrs, packet) == Winner(b.pdrs, packet)
  {
    Validation.PermutedAccepted(a, b, limits);
    forall p
      ensures p in a.pdrs <==> p in b.pdrs
    {
      PermutedMembers(a.pdrs, b.pdrs, p);
    }
    var w := Winner(a.pdrs, packet);
    if w.Some? {
      WinnerIffBeatsAll(a, limits, packet, w.value);
      assert BeatsAll(b.pdrs, packet, w.value);
      WinnerIffBeatsAll(b, limits, packet, w.value);
    }
  }

  // ----- The candidate list

  function Candidates(pdrs: seq<Pdr>, packet: Packet): (r: seq<MatchCandidate>)
    ensures |r| == |pdrs|
    ensures forall i | 0 <= i < |pdrs| :: r[i] == Candidate(pdrs[i], packet)
  {
    seq(|pdrs|, i requires 0 <= i < |pdrs| => Candidate(pdrs[i], packet))
  }

  ghost predicate SortedById(s: seq<MatchCandidate>) {
    forall i, j | 0 <= i < j < |s| :: s[i].pdrId <= s[j].pdrId
  }

  ghost predicate DistinctIds(s: seq<MatchCandidate>) {
    forall i, j | 0 <= i < j < |s| :: s[i].pdrId != s[j].pdrId
  }

  lemma HeadBelow(head: MatchCandidate, c: MatchCandidate, tail: seq<MatchCandidate>, rest: seq<MatchCandidate>)
    requires SortedById([head] + tail) && head.pdrId <= c.pdrId && SortedById(rest)
    requires multiset(rest) == multiset(tail) + multiset{c}
    ensures SortedById([head] + rest)
  {
    forall i | 0 <= i < |rest|
      ensures head.pdrId <= rest[i].pdrId
    {
      assert rest[i] in multiset(rest);
      if rest[i] != c {
        assert rest[i] in multiset(tail);
        var j :| 0 <= j < |tail| && tail[j] == rest[i];
        var s := [head] + tail;
        assert s[0] == head && s[j + 1] == tail[j];
      }
    }
  }

  function Insert(c: MatchCandidate, s: seq<MatchCandidate>): (r: seq<MatchCandidate>)
    requires SortedById(s)
    ensures SortedById(r)
    ensures multiset(r) == multiset(s) + multiset{c}
  {
    if s == [] then [c]
    else if c.pdrId <= s[0].pdrId then [c] + s
    else
      var tail := s[1..];
      var rest := Insert(c, tail);
      assert s == [s[0]] + tail;
      HeadBelow(s[0], c, tail, rest);
      [s[0]] + rest
  }

  /** What sorting by PDR ID leaves: ordered by ID, the same candidates with the same multiplicities. */
  function SortById(s: seq<MatchCandidate>): (r: seq<MatchCandidate>)
    ensures SortedById(r)
    ensures Permuted(s, r)
  {
    if s == [] then []
    else
      assert s == [s[0]] + s[1..];
      Insert(s[0], SortById(s[1..]))
  }

  lemma SameHead(a: seq<MatchCandidate>, b: seq<MatchCandidate>)
    requires a != [] && b != [] && SortedById(a) && SortedById(b) && DistinctIds(a) && DistinctIds(b)
    requires a[0] in b && b[0] in a
    ensures a[0] == b[0]
  {
    var i :| 0 <= i < |b| && b[i] == a[0];
    var j :| 0 <= j < |a| && a[j] == b[0];
    assert i > 0 ==> b[0].pdrId < a[0].pdrId;
    assert j > 0 ==> a[0].pdrId < b[0].pdrId;
  }

  lemma TailKeepsOrder(a: seq<MatchCandidate>)
    requires a != [] && SortedById(a) && DistinctIds(a)
    ensures SortedById(a[1..]) && DistinctIds(a[1..])
  {
    var tail := a[1..];
    assert forall i | 0 <= i < |tail| :: tail[i] == a[i + 1];
  }

  // With distinct IDs the sorted list is determined by its members, whichever algorithm sorts it.
  lemma {:induction false} SortedUnique(a: seq<MatchCandidate>, b: seq<MatchCandidate>)
    requires |a| == |b| && SortedById(a) && SortedById(b) && DistinctIds(a) && DistinctIds(b)
    requires forall x :: x in a <==> x in b
    ensures a == b
    decreases |a|
  {
    if a != [] {
      SameHead(a, b);
      forall x
        ensures x in a[1..] <==> x in b[1..]
      {
        TailMembers(a, x);
        TailMembers(b, x);
      }
      TailKeepsOrder(a);
      TailKeepsOrder(b);
      SortedUnique(a[1..], b[1..]);
      assert a == [a[0]] + a[1..] && b == [b[0]] + b[1..];
    }
  }

  lemma TailMembers(s: seq<MatchCandidate>, x: MatchCandidate)
    requires s != [] && DistinctIds(s)
    ensures x in s[1..] <==> x in s && x != s[0]
  {
    assert s == [s[0]] + s[1..];
    if x in s[1..] {
      var i :| 0 <= i < |s[1..]| && s[1..][i] == x;
      assert s[i + 1] == x;
    }
  }

  // Sorting keeps the IDs distinct, because it keeps the multiset.
  lemma SortedCandidatesDistinct(pdrs: seq<Pdr>, packet: Packet)
    requires UniqueIds(pdrs, PdrKey)
    ensures DistinctIds(SortById(Candidates(pdrs, packet)))
  {
    var c := Candidates(pdrs, packet);
    var r := SortById(c);
    assert UniqueIds(c, CandidateKey) by {
      forall i | 0 <= i < |c|
        ensures CandidateKey(c[i]) == PdrKey(pdrs[i]) != 0
      {
        assert pdrs[i] in pdrs;
      }
    }
    PermutedUniqueIds(c, r, CandidateKey);
    assert forall i, j | 0 <= i < j < |r| :: CandidateKey(r[i]) != CandidateKey(r[j]);
  }

  function CandidateKey(c: MatchCandidate): uint32 { c.pdrId }

  lemma CandidatesPermuted(xs: seq<Pdr>, ys: seq<Pdr>, packet: Packet)
    requires Permuted(xs, ys) && UniqueIds(xs, PdrKey)
    ensures SortById(Candidates(xs, packet)) == SortById(Candidates(ys, packet))
  {
    var a, b := Candidates(xs, packet), Candidates(ys, packet);
    PermutedUniqueIds(xs, ys, PdrKey);
    PermutedLength(xs, ys);
    PermutedLength(a, SortById(a));
    PermutedLength(b, SortById(b));
    SortedCandidatesDistinct(xs, packet);
    SortedCandidatesDistinct(ys, packet);
    CandidatesIncluded(xs, ys, packet);
    CandidatesIncluded(ys, xs, packet);
    forall x
      ensures x in SortById(a) <==> x in SortById(b)
    {
      PermutedMembers(a, SortById(a), x);
      PermutedMembers(b, SortById(b), x);
    }
    SortedUnique(SortById(a), SortById(b));
  }

  lemma CandidatesIncluded(xs: seq<Pdr>, ys: seq<Pdr>, packet: Packet)
    requires Permuted(xs, ys)
    ensures forall x | x in Candidates(xs, packet) :: x in Candidates(ys, packet)
  {
    forall x | x in Candidates(xs, packet)
      ensures x in Candidates(ys, packet)
    {
      var i :| 0 <= i < |xs| && Candidates(xs, packet)[i] == x;
      PermutedMembers(xs, ys, xs[i]);
      var j :| 0 <= j < |ys| && ys[j] == xs[i];
      assert Candidates(ys, packet)[j] == x;
    }
  }
}
