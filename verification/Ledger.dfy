/** Receipt conservation: the fences issued over a run, counted. */
module Ledger {
  import opened Base
  import opened Storage
  import opened Authority
  import opened Safety
  import opened Steps
  import opened Runs

  function Fences(tokens: set<GrantToken>): set<u64> {
    set token | token in tokens :: token.fence
  }

  predicate ExactlyBelow(fences: set<u64>, next: u64) {
    forall fence: u64 :: fence in fences <==> 1 <= fence < next
  }

  /** Fences are a ledger: exactly 1 .. nextFence-1 are on file, one per grant or receipt. */
  predicate Conserved(st: State) {
    && st.nextFence == 1 + |st.grants| + |st.retired|
    && ExactlyBelow(Fences(Tokens(st)), st.nextFence)
  }

  /** The step hands a directory to a session that did not hold it. */
  ghost predicate IssuesGrant(sys: System, step: Step) {
    && step.Checkout? && step.root !in sys.st.grants
    && CheckoutResult(sys.st, sys.ns, step.root, step.owner).Ok?
  }

  ghost function GrantsIssued(sys: System, steps: seq<Step>): nat
    decreases |steps|
  {
    if steps == [] then 0 else
      (if IssuesGrant(sys, steps[0]) then 1 else 0) + GrantsIssued(Apply(sys, steps[0]), steps[1..])
  }

  lemma FencesExtend(tokens: set<GrantToken>, token: GrantToken)
    ensures Fences(tokens + {token}) == Fences(tokens) + {token.fence}
  {
    forall fence | fence in Fences(tokens) ensures fence in Fences(tokens + {token}) {
      var t :| t in tokens && t.fence == fence;
      assert t in tokens + {token};
    }
    assert token in tokens + {token};
  }

  lemma ExactlyBelowExtends(fences: set<u64>, next: u64)
    requires ExactlyBelow(fences, next) && 1 <= next < U64_MAX
    ensures ExactlyBelow(fences + {next}, next + 1)
  {
  }

  lemma ConservedExtends(st: State, st': State, token: GrantToken)
    requires Conserved(st) && Tokens(st') == Tokens(st) + {token}
    requires token.fence == st.nextFence && st'.nextFence == st.nextFence + 1
    requires |st'.grants| + |st'.retired| == |st.grants| + |st.retired| + 1
    ensures Conserved(st')
  {
    FencesExtend(Tokens(st), token);
    ExactlyBelowExtends(Fences(Tokens(st)), st.nextFence);
  }

  lemma CheckoutConserves(st: State, ns: Namespace, root: InodeId, owner: string)
    requires Conserved(st) && CheckoutResult(st, ns, root, owner).Ok?
    ensures Conserved(CheckoutResult(st, ns, root, owner).value.0)
  {
    if root !in st.grants {
      var grant := FreshGrant(st, root, owner);
      IssuedTokens(st, grant);
      ConservedExtends(st, Issue(st, grant), grant.token);
    }
  }

  lemma CandidateConserves(st: State, prior: Namespace, proposed: Namespace, token: GrantToken)
    requires Conserved(st) && TokenLive(st, token)
    ensures Conserved(Candidate(st, prior, proposed, token))
  {
    var st' := Candidate(st, prior, proposed, token);
    CandidateReceipts(st, prior, proposed, token);
    assert |st'.grants| == |st'.grants.Keys| && |st.grants| == |st.grants.Keys|;
  }

  lemma PublishConserves(st: State, prior: Namespace, proposed: Namespace, token: GrantToken)
    requires Conserved(st) && PublishResult(st, prior, proposed, token).Ok?
    ensures Conserved(PublishResult(st, prior, proposed, token).value)
  {
    CandidateConserves(st, prior, proposed, token);
  }

  lemma RetireConserves(st: State, token: GrantToken)
    requires Conserved(st) && GrantsFiled(st) && TokenLive(st, token)
    ensures Conserved(Retire(st, token))
  {
    RetiredSizes(st, token);
    RetiredTokens(st, token);
  }

  lemma CheckinConserves(st: State, token: GrantToken, ns: Namespace)
    requires Conserved(st) && CheckinResult(st, token, ns).Ok?
    ensures Conserved(CheckinResult(st, token, ns).value)
  {
    if token !in st.retired { RetireConserves(st, token); }
  }

  lemma RecoverConserves(st: State, root: InodeId, fence: u64, ns: Namespace)
    requires Conserved(st) && RecoverResult(st, root, fence, ns).Ok?
    ensures Conserved(RecoverResult(st, root, fence, ns).value.0)
  {
    if !FenceRetired(st, root, fence) {
      assert GrantsFiled(st);
      RetireConserves(st, st.grants[root].token);
    }
  }

  lemma StepConserves(sys: System, step: Step)
    requires Conserved(sys.st)
    ensures Conserved(Apply(sys, step).st)
    ensures Apply(sys, step).st.nextFence == sys.st.nextFence + (if IssuesGrant(sys, step) then 1 else 0)
  {
    hide StateValid, Conserved, CheckoutAllowed, PublishChecks;
    match step
    case Checkout(root, owner) =>
      if CheckoutResult(sys.st, sys.ns, root, owner).Ok? {
        CheckoutConserves(sys.st, sys.ns, root, owner);
      }
    case Publish(proposed, token) =>
      if PublishResult(sys.st, sys.ns, proposed, token).Ok? {
        PublishConserves(sys.st, sys.ns, proposed, token);
      }
    case Checkin(token) =>
      if CheckinResult(sys.st, token, sys.ns).Ok? { CheckinConserves(sys.st, token, sys.ns); }
    case Recover(root, fence) =>
      if RecoverResult(sys.st, root, fence, sys.ns).Ok? {
        RecoverConserves(sys.st, root, fence, sys.ns);
      }
  }

  lemma {:induction false} LedgerOverRuns(sys: System, steps: seq<Step>)
    requires Conserved(sys.st)
    ensures Conserved(Run(sys, steps).st)
    ensures Run(sys, steps).st.nextFence == sys.st.nextFence + GrantsIssued(sys, steps)
    decreases |steps|
  {
    if steps != [] {
      StepConserves(sys, steps[0]);
      LedgerOverRuns(Apply(sys, steps[0]), steps[1..]);
    }
  }

  lemma InitialValid(backing: BackingId, ns: Namespace)
    requires Valid(ns) && BackingValid(backing)
    ensures SystemValid(System(Initial(backing), ns))
  {
    assert Tokens(Initial(backing)) == {};
  }

  lemma ValidStateBounded(sys: System)
    requires SystemValid(sys)
    ensures |sys.st.grants| + |sys.st.retired| <= MAX_DELEGATION_IDENTITIES
  {
  }

  /** Receipt conservation: in every run from a new state the issued fences are exactly
      1 .. nextFence-1, and at most 4096 grants are issued, so fences never run out. */
  lemma ReceiptConservation(backing: BackingId, ns: Namespace, steps: seq<Step>)
    requires Valid(ns) && BackingValid(backing)
    ensures
      var start := System(Initial(backing), ns);
      var later := Run(start, steps);
      && Conserved(later.st)
      && later.st.nextFence == 1 + GrantsIssued(start, steps)
      && GrantsIssued(start, steps) <= 4096
      && later.st.nextFence < U64_MAX
  {
    var start := System(Initial(backing), ns);
    InitialValid(backing, ns);
    RunPreserves(start, steps);
    ValidStateBounded(Run(start, steps));
    LedgerOverRuns(start, steps);
  }
}
