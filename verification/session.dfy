/** The page as a whole: which user actions its controls offer in a given
    view, the command each action runs, and what holds along any sequence
    of actions. */
module Session {
  import opened Outcomes
  import opened Text
  import opened Decimal
  import opened ViewState
  import opened Commands

  /** A user action together with how the calls it makes end. */
  datatype Event =
    | Typed(text: string)
    | AddClicked(tx: TxResult)
    | RemoveClicked(index: nat, tx: TxResult)
    | VoteClicked(index: nat, tx: TxResult, count: Reply<nat>)
    | ProofSubmitted(parsed: bool, tx: TxResult)
    | StartClicked(tx: TxResult, voted: Reply<bool>)
    | EndClicked(tx: TxResult, voted: Reply<bool>)
    | RestartClicked(tx: TxResult)

  /** Whether the rendered page lets the user perform `e`: the admin panel
      (input box, Add, Start, End, Restart) and the Remove buttons exist only
      for the owner, there is one Vote and one Remove button per candidate
      row, and disabled buttons do nothing. The proof form is always there. */
  predicate Offered(v: View, e: Event) {
    match e
    case Typed(_) => ShowsAdminControls(v)
    case AddClicked(_) => ShowsAdminControls(v)
    case RemoveClicked(i, _) => ShowsAdminControls(v) && i < |v.candidates|
    case VoteClicked(i, _, _) => i < |v.candidates| && VoteEnabled(v)
    case ProofSubmitted(_, _) => true
    case StartClicked(_, _) => ShowsAdminControls(v) && StartEnabled(v)
    case EndClicked(_, _) => ShowsAdminControls(v) && EndEnabled(v)
    case RestartClicked(_) => ShowsAdminControls(v)
  }

  /** One user action. An action the page does not offer has no effect. */
  function Step(v: View, e: Event): (r: View)
    requires WellFormed(v)
    ensures WellFormed(r)
    ensures SameSession(v, r)
    ensures !Offered(v, e) ==> r == v
  {
    if !Offered(v, e) then v
    else match e
      case Typed(text) => EditNewCandidate(v, text)
      case AddClicked(tx) => AddCandidate(v, tx)
      case RemoveClicked(i, tx) => RemoveCandidate(v, i, tx)
      case VoteClicked(i, tx, count) => Vote(v, i, tx, count)
      case ProofSubmitted(parsed, tx) => SubmitProof(v, parsed, tx)
      case StartClicked(tx, voted) => StartElection(v, tx, voted)
      case EndClicked(tx, voted) => EndElection(v, tx, voted)
      case RestartClicked(tx) => RestartElection(v, tx)
  }

  /** A sequence of user actions, in order. */
  function Run(v: View, es: seq<Event>): (r: View)
    requires WellFormed(v)
    ensures WellFormed(r)
    ensures SameSession(v, r)
    decreases |es|
  {
    if es == [] then v else Run(Step(v, es[0]), es[1..])
  }

  /** Every loaded page satisfies the mirror invariant after any sequence
      of actions. */
  lemma AlignedAfterLoadAndActions(chain: Reply<int>, account: Reply<string>, owner: Reply<string>,
                                   started: Reply<bool>, listing: Reply<seq<Listed>>, voted: Reply<bool>,
                                   es: seq<Event>)
    ensures var v := Bootstrap(chain, account, owner, started, listing, voted);
      |Run(v, es).candidates| == |Run(v, es).votes|
  {
  }

  /** A transaction that throws is only alerted: the view is untouched. */
  lemma FailedTransactionChangesNothing(v: View, e: Event)
    requires WellFormed(v)
    requires !e.Typed? && e.tx.Failed?
    ensures Step(v, e) == v
  {
  }

  /** Rows stay index-aligned: each command moves names and counts
      together. */
  lemma StepKeepsRowsTogether(v: View, e: Event)
    requires WellFormed(v) && Offered(v, e)
    ensures var r := Step(v, e);
      e.AddClicked? && e.tx.Confirmed? && !AllTrimmable(v.newCandidate) ==>
        Entries(r) == Entries(v) + [(v.newCandidate, "0")]
    ensures var r := Step(v, e);
      e.RemoveClicked? && e.tx.Confirmed? ==>
        Entries(r) == Splice(Entries(v), e.index)
    ensures var r := Step(v, e);
      e.VoteClicked? && e.tx.Confirmed? && e.count.Returned? ==>
        Entries(r) == Entries(v)[e.index := (v.candidates[e.index], ToDecimal(e.count.value))]
    ensures var r := Step(v, e);
      !e.AddClicked? && !e.RemoveClicked? ==> r.candidates == v.candidates
  {
    var r := Step(v, e);
    if e.AddClicked? && e.tx.Confirmed? && !AllTrimmable(v.newCandidate) {
      var a := AppendRow(v, v.newCandidate);
      assert r.candidates == a.candidates && r.votes == a.votes;
      assert Entries(r) == Entries(a);
    }
    if e.VoteClicked? && e.tx.Confirmed? && e.count.Returned? {
      var want := Entries(v)[e.index := (v.candidates[e.index], ToDecimal(e.count.value))];
      assert r.votes[e.index] == ToDecimal(e.count.value) by {
        ToDecimalOfValue(r.votes[e.index]);
      }
      assert forall i :: 0 <= i < |want| ==> Entries(r)[i] == want[i];
    }
  }

  /** The actions after which the page takes `hasVoted` from the contract
      again, or clears it. */
  predicate RefreshesVoterStatus(e: Event) {
    || ((e.StartClicked? || e.EndClicked?) && e.tx.Confirmed? && e.voted.Returned?)
    || (e.RestartClicked? && e.tx.Confirmed?)
  }

  /** Once the page shows that the account has voted, its Vote buttons stay
      disabled until an election command refreshes that status. */
  lemma {:induction false} VotedStaysVoted(v: View, es: seq<Event>)
    requires WellFormed(v) && v.hasVoted
    requires forall i :: 0 <= i < |es| ==> !RefreshesVoterStatus(es[i])
    ensures Run(v, es).hasVoted && !VoteEnabled(Run(v, es))
    decreases |es|
  {
    if es != [] {
      var w := Step(v, es[0]);
      assert !RefreshesVoterStatus(es[0]);
      assert w.hasVoted;
      VotedStaysVoted(w, es[1..]);
    }
  }

  /** A visitor who is not the owner cannot change the candidate list, the
      election flag or the input box through the page. */
  lemma {:induction false} VisitorCannotChangeElection(v: View, es: seq<Event>)
    requires WellFormed(v) && !ShowsAdminControls(v)
    ensures Run(v, es).candidates == v.candidates
    ensures Run(v, es).electionStarted == v.electionStarted
    ensures Run(v, es).newCandidate == v.newCandidate
    decreases |es|
  {
    if es != [] {
      var w := Step(v, es[0]);
      assert w.candidates == v.candidates && w.electionStarted == v.electionStarted
        && w.newCandidate == v.newCandidate;
      VisitorCannotChangeElection(w, es[1..]);
    }
  }

  /** The owner, during a live election, has typed "Alice". */
  const AliceTyped: View := View("0xab", "0xAB", [], [], false, true, "Alice")

  /** Adding "Alice" gives one row with a count of "0". */
  lemma AliceAdded()
    ensures Step(AliceTyped, AddClicked(Confirmed)) == AliceTyped.(candidates := ["Alice"], votes := ["0"], newCandidate := "")
  {
    assert ShowsAdminControls(AliceTyped) by {
      AdminCheck(AliceTyped);
    }
    assert !AllTrimmable("Alice") by {
      assert !IsTrimmable("Alice"[0]);
    }
  }

  /** Voting for row 0 when the contract then reports one vote. */
  lemma AliceVoted()
    ensures var v := AliceTyped.(candidates := ["Alice"], votes := ["0"], newCandidate := "");
      Step(v, VoteClicked(0, Confirmed, Returned(1))) == v.(votes := ["1"], hasVoted := true)
  {
    assert ToDecimal(1) == "1";
  }

  /** Removing row 0 empties both lists. */
  lemma AliceRemoved()
    ensures var v := AliceTyped.(candidates := ["Alice"], votes := ["1"], newCandidate := "", hasVoted := true);
      Step(v, RemoveClicked(0, Confirmed)) == v.(candidates := [], votes := [])
  {
    var v := AliceTyped.(candidates := ["Alice"], votes := ["1"], newCandidate := "", hasVoted := true);
    assert ShowsAdminControls(v) by {
      AdminCheck(v);
    }
  }
}
