/** The React state of the voting page (frontend/src/App.js) that mirrors
    the contract, the render predicates computed from it, and the bootstrap
    that fills it when the page loads. */
module ViewState {
  import opened Outcomes
  import opened Text
  import opened Decimal

  /** `votes[i]` is the decimal vote count of `candidates[i]`;
      `newCandidate` is the text of the admin panel's input box. */
  datatype View = View(
    account: string,
    owner: string,
    candidates: seq<string>,
    votes: seq<string>,
    hasVoted: bool,
    electionStarted: bool,
    newCandidate: string)

  /** The `useState` defaults the page starts from. */
  const Initial: View := View("", "", [], [], false, false, "")

  /** The page's mirror invariant: candidate names and vote counts are
      parallel lists, and every count is a decimal numeral. */
  predicate WellFormed(v: View) {
    && |v.candidates| == |v.votes|
    && forall i :: 0 <= i < |v.votes| ==> IsNumeral(v.votes[i])
  }

  /** The candidate rows as rendered: name and count side by side. */
  function Entries(v: View): (es: seq<(string, string)>)
    requires |v.candidates| == |v.votes|
    ensures |es| == |v.candidates|
  {
    seq(|v.candidates|, i requires 0 <= i < |v.candidates| => (v.candidates[i], v.votes[i]))
  }

  /** The Vote button of each row, written as the page writes its
      `disabled` attribute. */
  predicate VoteEnabled(v: View) {
    !(!v.electionStarted || v.hasVoted)
  }

  /** Start Election is disabled while the election runs. */
  predicate StartEnabled(v: View) {
    !v.electionStarted
  }

  /** End Election is disabled while no election runs. */
  predicate EndEnabled(v: View) {
    v.electionStarted
  }

  /** The admin panel and the Remove buttons are rendered only when the
      connected account equals the owner up to letter case. */
  predicate ShowsAdminControls(v: View) {
    Lower(v.account) == Lower(v.owner)
  }

  /** The Vote button is live exactly during an election the account has
      not voted in; Start and End are never live together. */
  lemma ButtonStates(v: View)
    ensures VoteEnabled(v) <==> v.electionStarted && !v.hasVoted
    ensures StartEnabled(v) != EndEnabled(v)
    ensures VoteEnabled(v) ==> EndEnabled(v)
  {
  }

  /** The admin check ignores the case of ASCII letters only, so an address
      in checksum case matches its all-lowercase form. */
  lemma AdminCheck(v: View)
    ensures ShowsAdminControls(v) <==>
      |v.account| == |v.owner| &&
      forall k :: 0 <= k < |v.account| ==> LowerChar(v.account[k]) == LowerChar(v.owner[k])
    ensures v.account == v.owner ==> ShowsAdminControls(v)
  {
    LowerEqualIff(v.account, v.owner);
  }

  /** Before any data has loaded, account and owner are both empty, so the
      admin controls are shown. */
  lemma InitialShowsAdminControls()
    ensures ShowsAdminControls(Initial)
    ensures WellFormed(Initial)
  {
  }

  /** An account reported in lowercase matches an owner address written in
      mixed (checksum) case. */
  lemma LowercaseAccountMatchesOwner(v: View)
    requires v.account == Lower(v.owner)
    ensures ShowsAdminControls(v)
  {
    LowerIdempotent(v.owner);
  }

  /** The chain id of the Hardhat localhost network the page insists on. */
  const ExpectedChainId: int := 31337

  /** One row read at load time: `getCandidate(i)` and `getVotes(i)`. */
  datatype Listed = Listed(name: string, count: nat)

  /** The `names` array the load builds, one name per row in index order. */
  function Names(ls: seq<Listed>): (ns: seq<string>)
    ensures |ns| == |ls|
    ensures forall i :: 0 <= i < |ls| ==> ns[i] == ls[i].name
  {
    seq(|ls|, i requires 0 <= i < |ls| => ls[i].name)
  }

  /** The `voteCounts` array the load builds, one numeral per row. */
  function Counts(ls: seq<Listed>): (cs: seq<string>)
    ensures |cs| == |ls|
    ensures forall i :: 0 <= i < |ls| ==> IsNumeral(cs[i]) && ValueOf(cs[i]) == ls[i].count
  {
    var cs := seq(|ls|, i requires 0 <= i < |ls| => ToDecimal(ls[i].count));
    CountsRead(ls, cs);
    cs
  }

  lemma CountsRead(ls: seq<Listed>, cs: seq<string>)
    requires |cs| == |ls|
    requires forall i :: 0 <= i < |ls| ==> cs[i] == ToDecimal(ls[i].count)
    ensures forall i :: 0 <= i < |ls| ==> IsNumeral(cs[i]) && ValueOf(cs[i]) == ls[i].count
  {
    forall i | 0 <= i < |ls| ensures ValueOf(cs[i]) == ls[i].count {
      ValueOfToDecimal(ls[i].count);
    }
  }

  /** `loadBlockchainData`: the network check, then the reads in order,
      each result stored as soon as it arrives. The first read that throws
      ends the load and every later field keeps its default.
      `chain` also stands for a missing wallet, which alerts and stores
      nothing, like a throwing `getNetwork`; `owner` also stands for the
      signer lookup just before it; `listing` is the count and the loop over
      the rows, which are stored together once all were read. */
  function Bootstrap(chain: Reply<int>, account: Reply<string>, owner: Reply<string>,
                     started: Reply<bool>, listing: Reply<seq<Listed>>, voted: Reply<bool>): (r: View)
    ensures WellFormed(r)
    ensures chain.Threw? || chain.value != ExpectedChainId || account.Threw? ==> r == Initial
    ensures r.account != Initial.account ==> account == Returned(r.account)
    ensures owner.Threw? ==> r.owner == "" && !r.electionStarted && r.candidates == [] && !r.hasVoted
    ensures started.Threw? ==> !r.electionStarted && r.candidates == [] && !r.hasVoted
    ensures listing.Threw? ==> r.candidates == [] && !r.hasVoted
    ensures voted.Threw? ==> !r.hasVoted
    ensures r.newCandidate == ""
    ensures chain == Returned(ExpectedChainId) && account.Returned? ==> r.account == account.value
    ensures chain == Returned(ExpectedChainId) && account.Returned? && owner.Returned? ==>
      r.owner == owner.value
    ensures chain == Returned(ExpectedChainId) && account.Returned? && owner.Returned?
            && started.Returned? ==>
      r.electionStarted == started.value
    ensures chain == Returned(ExpectedChainId) && account.Returned? && owner.Returned?
            && started.Returned? && listing.Returned? ==>
      r.candidates == Names(listing.value) && r.votes == Counts(listing.value)
    ensures chain == Returned(ExpectedChainId) && account.Returned? && owner.Returned?
            && started.Returned? && listing.Returned? && voted.Returned? ==>
      && r.account == account.value && r.owner == owner.value
      && r.electionStarted == started.value && r.hasVoted == voted.value
      && |r.candidates| == |listing.value|
      && forall i :: 0 <= i < |listing.value| ==>
           r.candidates[i] == listing.value[i].name && ValueOf(r.votes[i]) == listing.value[i].count
  {
    if chain.Threw? || chain.value != ExpectedChainId || account.Threw? then Initial
    else
      var withAccount := Initial.(account := account.value);
      if owner.Threw? then withAccount
      else
        var withOwner := withAccount.(owner := owner.value);
        if started.Threw? then withOwner
        else
          var withFlag := withOwner.(electionStarted := started.value);
          if listing.Threw? then withFlag
          else
            var ls := listing.value;
            var withRows := withFlag.(candidates := Names(ls), votes := Counts(ls));
            if voted.Threw? then withRows else withRows.(hasVoted := voted.value)
  }

  /** On the wrong network the page reads nothing: whatever the later reads
      would have returned, the view stays at its defaults. */
  lemma WrongChainReadsNothing(chain: int, a: Reply<string>, o: Reply<string>, s: Reply<bool>,
                               l: Reply<seq<Listed>>, h: Reply<bool>)
    requires chain != ExpectedChainId
    ensures Bootstrap(Returned(chain), a, o, s, l, h) == Initial
    ensures !VoteEnabled(Bootstrap(Returned(chain), a, o, s, l, h))
  {
  }
}
