/** The page's commands (frontend/src/App.js). Each one awaits its
    transaction and, once it is confirmed, patches the view; a throw from
    the transaction is caught, alerted and leaves the view as it was. A
    throw from a read made after the confirmation is caught the same way,
    but the updates made before it stay. */
module Commands {
  import opened Outcomes
  import opened Text
  import opened Decimal
  import opened ViewState

  /** `Array.prototype.splice(i, 1)` for a non-negative `i`: removes the
      element at `i`, or nothing when `i` is past the end. */
  function Splice<T>(s: seq<T>, i: nat): (r: seq<T>)
    ensures i < |s| ==> |r| == |s| - 1
    ensures i < |s| ==> forall j :: 0 <= j < i ==> r[j] == s[j]
    ensures i < |s| ==> forall j :: i <= j < |r| ==> r[j] == s[j + 1]
    ensures i >= |s| ==> r == s
  {
    if i < |s| then s[..i] + s[i + 1..] else s
  }

  /** `votes.map(() => "0")`. */
  function ZeroVotes(votes: seq<string>): (z: seq<string>)
    ensures |z| == |votes|
    ensures forall i :: 0 <= i < |z| ==> z[i] == "0"
  {
    seq(|votes|, _ => "0")
  }

  /** Account and owner are set at load time only. */
  predicate SameSession(v: View, r: View) {
    r.account == v.account && r.owner == v.owner
  }

  /** Typing in the admin panel's input box. */
  function EditNewCandidate(v: View, text: string): (r: View)
    ensures r.newCandidate == text
    ensures SameSession(v, r) && r.candidates == v.candidates && r.votes == v.votes
    ensures r.hasVoted == v.hasVoted && r.electionStarted == v.electionStarted
    ensures WellFormed(v) ==> WellFormed(r)
  {
    v.(newCandidate := text)
  }

  /** The row a confirmed add appends: the name and a count of "0". */
  function AppendRow(v: View, name: string): (r: View)
    ensures |r.candidates| == |v.candidates| + 1 && |r.votes| == |v.votes| + 1
    ensures r.candidates[..|v.candidates|] == v.candidates && r.candidates[|v.candidates|] == name
    ensures r.votes[..|v.votes|] == v.votes && r.votes[|v.votes|] == "0"
    ensures |v.candidates| == |v.votes| ==> Entries(r) == Entries(v) + [(name, "0")]
    ensures SameSession(v, r) && r.hasVoted == v.hasVoted && r.electionStarted == v.electionStarted
    ensures r.newCandidate == v.newCandidate
    ensures WellFormed(v) ==> WellFormed(r)
  {
    var r := v.(candidates := v.candidates + [name], votes := v.votes + ["0"]);
    assert forall i :: 0 <= i < |v.votes| ==> r.votes[i] == v.votes[i];
    assert r.candidates[..|v.candidates|] == v.candidates;
    assert r.votes[..|v.votes|] == v.votes;
    assert |v.candidates| == |v.votes| ==> Entries(r) == Entries(v) + [(name, "0")] by {
      if |v.candidates| == |v.votes| {
        var e, e' := Entries(r), Entries(v) + [(name, "0")];
        assert |e| == |e'|;
        assert forall i :: 0 <= i < |e| ==> e[i] == e'[i];
      }
    }
    r
  }

  /** `addCandidate`: a blank name sends nothing. Otherwise, once the
      transaction is confirmed, the name is appended exactly as typed,
      untrimmed, with a count of "0", and the input box is cleared. */
  function AddCandidate(v: View, tx: TxResult): (r: View)
    ensures AllTrimmable(v.newCandidate) ==> r == v
    ensures tx.Failed? ==> r == v
    ensures !AllTrimmable(v.newCandidate) && tx.Confirmed? ==>
      && |r.candidates| == |v.candidates| + 1
      && r.candidates[..|v.candidates|] == v.candidates
      && r.candidates[|v.candidates|] == v.newCandidate
      && |r.votes| == |v.votes| + 1
      && r.votes[..|v.votes|] == v.votes
      && r.votes[|v.votes|] == "0"
      && r.newCandidate == ""
      && SameSession(v, r) && r.hasVoted == v.hasVoted && r.electionStarted == v.electionStarted
    ensures WellFormed(v) ==> WellFormed(r)
  {
    TrimEmptyIff(v.newCandidate);
    if Trim(v.newCandidate) == "" then v
    else match tx
      case Failed => v
      case Confirmed =>
        var a := AppendRow(v, v.newCandidate);
        assert WellFormed(v) ==> WellFormed(a);
        a.(newCandidate := "")
  }

  /** `removeCandidate(index)`: once confirmed, the row at `index` leaves
      both lists and every other row keeps its order. */
  function RemoveCandidate(v: View, index: nat, tx: TxResult): (r: View)
    ensures tx.Failed? ==> r == v
    ensures tx.Confirmed? ==>
      && SameSession(v, r) && r.hasVoted == v.hasVoted && r.electionStarted == v.electionStarted
      && r.newCandidate == v.newCandidate
    ensures tx.Confirmed? && index < |v.candidates| && index < |v.votes| ==>
      && |r.candidates| == |v.candidates| - 1 && |r.votes| == |v.votes| - 1
      && (forall j :: 0 <= j < index ==> r.candidates[j] == v.candidates[j] && r.votes[j] == v.votes[j])
      && (forall j :: index <= j < |r.candidates| ==> r.candidates[j] == v.candidates[j + 1])
      && (forall j :: index <= j < |r.votes| ==> r.votes[j] == v.votes[j + 1])
    ensures tx.Confirmed? && index >= |v.candidates| && index >= |v.votes| ==> r == v
    ensures tx.Confirmed? && |v.candidates| == |v.votes| ==>
      |r.candidates| == |r.votes| && Entries(r) == Splice(Entries(v), index)
    ensures WellFormed(v) ==> WellFormed(r)
  {
    match tx
    case Failed => v
    case Confirmed =>
      var r := v.(candidates := Splice(v.candidates, index), votes := Splice(v.votes, index));
      assert |v.candidates| == |v.votes| ==> Entries(r) == Splice(Entries(v), index);
      r
  }

  /** `vote(index)`: once confirmed, `hasVoted` is set at once; then the new
      count is read back and stored at `index` only. If that read throws,
      `hasVoted` stays set and the old counts stay. */
  function Vote(v: View, index: nat, tx: TxResult, count: Reply<nat>): (r: View)
    requires tx.Confirmed? && count.Returned? ==> index < |v.votes|
    ensures tx.Failed? ==> r == v
    ensures tx.Confirmed? ==>
      && r.hasVoted && !VoteEnabled(r)
      && r.candidates == v.candidates && |r.votes| == |v.votes|
      && SameSession(v, r) && r.electionStarted == v.electionStarted && r.newCandidate == v.newCandidate
    ensures tx.Confirmed? && count.Threw? ==> r.votes == v.votes
    ensures tx.Confirmed? && count.Returned? ==>
      && IsNumeral(r.votes[index]) && ValueOf(r.votes[index]) == count.value
      && forall j :: 0 <= j < |v.votes| && j != index ==> r.votes[j] == v.votes[j]
    ensures WellFormed(v) ==> WellFormed(r)
  {
    match tx
    case Failed => v
    case Confirmed =>
      var voted := v.(hasVoted := true);
      match count
      case Threw => voted
      case Returned(n) =>
        ValueOfToDecimal(n);
        voted.(votes := v.votes[index := ToDecimal(n)])
  }

  /** `voteWithProof`: a throw while converting the public inputs or from
      the transaction changes nothing; a confirmed vote sets `hasVoted` and
      nothing else (the counts are not read back). */
  function VoteWithProof(v: View, tx: TxResult): (r: View)
    ensures tx.Failed? ==> r == v
    ensures tx.Confirmed? ==> r.hasVoted && !VoteEnabled(r)
    ensures tx.Confirmed? ==> r == v.(hasVoted := true)
    ensures WellFormed(v) ==> WellFormed(r)
  {
    match tx
    case Failed => v
    case Confirmed => v.(hasVoted := true)
  }

  /** `handleProofSubmit`: if the proof text or the public inputs cannot be
      parsed, nothing is sent; otherwise it is `voteWithProof`, which
      catches its own errors. */
  function SubmitProof(v: View, parsed: bool, tx: TxResult): (r: View)
    ensures !parsed || tx.Failed? ==> r == v
    ensures parsed && tx.Confirmed? ==> r.hasVoted && r == v.(hasVoted := true)
    ensures WellFormed(v) ==> WellFormed(r)
  {
    if !parsed then v else VoteWithProof(v, tx)
  }

  /** `startElection`: once confirmed the election is marked live and every
      count is reset to "0"; then `hasVoted` is read back, and if that read
      throws the earlier updates stay. */
  function StartElection(v: View, tx: TxResult, voted: Reply<bool>): (r: View)
    ensures tx.Failed? ==> r == v
    ensures tx.Confirmed? ==>
      && r.electionStarted
      && r.candidates == v.candidates
      && |r.votes| == |v.votes| && (forall i :: 0 <= i < |r.votes| ==> r.votes[i] == "0")
      && SameSession(v, r) && r.newCandidate == v.newCandidate
    ensures tx.Confirmed? ==> r.hasVoted == (if voted.Returned? then voted.value else v.hasVoted)
    ensures WellFormed(v) ==> WellFormed(r)
  {
    match tx
    case Failed => v
    case Confirmed =>
      var live := v.(electionStarted := true, votes := ZeroVotes(v.votes));
      match voted
      case Threw => live
      case Returned(b) => live.(hasVoted := b)
  }

  /** `endElection`: as `startElection`, but the election is marked over. */
  function EndElection(v: View, tx: TxResult, voted: Reply<bool>): (r: View)
    ensures tx.Failed? ==> r == v
    ensures tx.Confirmed? ==>
      && !r.electionStarted && !VoteEnabled(r)
      && r.candidates == v.candidates
      && |r.votes| == |v.votes| && (forall i :: 0 <= i < |r.votes| ==> r.votes[i] == "0")
      && SameSession(v, r) && r.newCandidate == v.newCandidate
    ensures tx.Confirmed? ==> r.hasVoted == (if voted.Returned? then voted.value else v.hasVoted)
    ensures WellFormed(v) ==> WellFormed(r)
  {
    match tx
    case Failed => v
    case Confirmed =>
      var over := v.(electionStarted := false, votes := ZeroVotes(v.votes));
      match voted
      case Threw => over
      case Returned(b) => over.(hasVoted := b)
  }

  /** `restartElection`: once confirmed the election is live, every count is
      "0" and the account may vote again; nothing is read back. */
  function RestartElection(v: View, tx: TxResult): (r: View)
    ensures tx.Failed? ==> r == v
    ensures tx.Confirmed? ==>
      && r.electionStarted && !r.hasVoted && VoteEnabled(r)
      && r.candidates == v.candidates
      && |r.votes| == |v.votes| && (forall i :: 0 <= i < |r.votes| ==> r.votes[i] == "0")
      && SameSession(v, r) && r.newCandidate == v.newCandidate
    ensures WellFormed(v) ==> WellFormed(r)
  {
    match tx
    case Failed => v
    case Confirmed => v.(electionStarted := true, votes := ZeroVotes(v.votes), hasVoted := false)
  }
}
