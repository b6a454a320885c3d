/** The management client's credentials, shared by concurrent requests that retry when refused. */
module ManagementAuth {
  import opened Text

  // ----- the controller as a value -----

  datatype Reason = Required | Invalid

  /** `pending` names the promise of the challenge that is being answered; names are never reused. */
  datatype Auth = Auth(
    token: Option<string>, generation: nat,
    pending: Option<nat>, open: bool, reason: Reason, nextPromise: nat)

  function Initial(): Auth {
    Auth(None, 0, None, false, Required, 0)
  }

  /** The white space that `String.prototype.trim` removes. */
  predicate Space(c: char) {
    '\t' <= c <= '\r' || c in {' ', '\U{a0}', '\U{feff}', '\U{1680}', '\U{2028}', '\U{2029}', '\U{202f}', '\U{205f}',
      '\U{3000}'}
    || '\U{2000}' <= c <= '\U{200a}'
  }

  predicate BlankText(s: string) {
    forall c :: c in s ==> Space(c)
  }

  /** `String.prototype.trim`. */
  function Trim(s: string): string {
    if s != "" && Space(s[0]) then Trim(s[1..])
    else if s != "" && Space(s[|s| - 1]) then Trim(s[..|s| - 1])
    else s
  }

  /** A candidate is blank exactly when trimming leaves nothing. */
  lemma {:induction false} BlankIsTrimmedAway(s: string)
    ensures BlankText(s) <==> Trim(s) == ""
  {
    if s != "" && Space(s[0]) {
      BlankIsTrimmedAway(s[1..]);
      assert s == [s[0]] + s[1..];
    } else if s != "" {
      assert s[0] in s;
      if Space(s[|s| - 1]) {
        BlankIsTrimmedAway(s[..|s| - 1]);
        assert s == s[..|s| - 1] + [s[|s| - 1]];
      }
    }
  }

  /** Trimming knows the white space of section 12.2 of ECMA-262 and its line ends, and no printable character. */
  lemma SpaceCharacters()
    ensures forall c :: c in "\t\n\U{b}\U{c}\r \U{a0}\U{feff}\U{1680}\U{2028}\U{2029}\U{202f}\U{205f}\U{3000}" ==>
      Space(c)
    ensures forall c :: c in "\U{2000}\U{2001}\U{2002}\U{2003}\U{2004}\U{2005}" ==> Space(c)
    ensures forall c :: c in "\U{2006}\U{2007}\U{2008}\U{2009}\U{200a}" ==> Space(c)
    ensures forall c :: '!' <= c <= '~' ==> !Space(c)
  {
  }

  function Cleared(a: Auth): Auth {
    a.(token := None, generation := a.generation + 1)
  }

  function Invalidated(a: Auth, generation: nat): Auth {
    if generation == a.generation then Cleared(a) else a
  }

  /** What a challenge gives its caller: a token at once, or the promise of one. */
  datatype Promise = Resolved(token: string) | Unresolved(promise: nat)

  function Challenged(a: Auth, reason: Reason): (Auth, Promise) {
    if a.token.Some? && reason == Required then (a, Resolved(a.token.value))
    else
      var b := if a.token.Some? then Cleared(a) else a;
      if b.pending.Some? then (b.(open := true, reason := reason), Unresolved(b.pending.value))
      else
        (b.(pending := Some(b.nextPromise), nextPromise := b.nextPromise + 1, open := true, reason := reason),
         Unresolved(b.nextPromise))
  }

  function Submitted(a: Auth, candidate: string): Auth {
    if BlankText(candidate) then a
    else a.(token := Some(candidate), generation := a.generation + 1, pending := None, open := false,
      reason := Required)
  }

  function CancelledAuth(a: Auth): Auth {
    Cleared(a).(pending := None, open := false, reason := Required)
  }

  /** The dialog is open exactly while a challenge is pending, and never while a token is held. */
  predicate Coherent(a: Auth) {
    (a.open <==> a.pending.Some?) && (a.token.Some? ==> a.pending.None?)
    && (a.pending.Some? ==> a.pending.value < a.nextPromise)
  }

  // ----- the controller object -----

  class ManagementAuthController {
    var token: Option<string>
    var generation: nat
    var pending: Option<nat>
    var open: bool
    var reason: Reason
    var nextPromise: nat

    function View(): Auth
      reads this
    {
      Auth(token, generation, pending, open, reason, nextPromise)
    }

    predicate Valid()
      reads this
    {
      Coherent(View())
    }

    constructor ()
      ensures Valid() && View() == Initial()
    {
      token, generation, pending, open, reason, nextPromise := None, 0, None, false, Required, 0;
    }

    method Clear()
      modifies this`token, this`generation
      ensures View() == Cleared(old(View())) && (old(Valid()) ==> Valid())
    {
      token := None;
      generation := generation + 1;
    }

    method Invalidate(of: nat) returns (cleared: bool)
      requires Valid()
      modifies this`token, this`generation
      ensures Valid() && View() == Invalidated(old(View()), of) && cleared == (of == old(generation))
    {
      if of != generation { return false; }
      Clear();
      return true;
    }

    method Challenge(why: Reason) returns (promise: Promise)
      requires Valid()
      modifies this
      ensures Valid() && (View(), promise) == Challenged(old(View()), why)
    {
      if token.Some? && why == Required { return Resolved(token.value); }
      if why == Invalid && token.Some? { Clear(); }
      if pending.None? {
        pending := Some(nextPromise);
        nextPromise := nextPromise + 1;
      }
      open, reason := true, why;
      return Unresolved(pending.value);
    }

    /** The result tells whether the text was taken; `resolved` is the promise that now has its token. */
    method Submit(candidate: string) returns (taken: bool, resolved: Option<nat>)
      requires Valid()
      modifies this
      ensures Valid() && View() == Submitted(old(View()), candidate)
      ensures taken == !BlankText(candidate) && resolved == if taken then old(pending) else None
    {
      if BlankText(candidate) { return false, None; }
      resolved := pending;
      pending := None;
      token := Some(candidate);
      generation := generation + 1;
      open, reason := false, Required;
      return true, resolved;
    }

    method Cancel() returns (rejected: Option<nat>)
      requires Valid()
      modifies this
      ensures Valid() && View() == CancelledAuth(old(View())) && rejected == old(pending)
    {
      rejected := pending;
      pending := None;
      Clear();
      open, reason := false, Required;
    }
  }

  // ----- the requests that share it -----

  /**
   * Where one retry loop stands: waiting for a challenge, holding a token its continuation has not
   * used yet, sent with a token and the generation read then, or discarding a refused response's body.
   */
  datatype Phase =
    | Starting
    | Waiting(promise: nat)
    | Resuming(token: string)
    | InFlight(token: string, generation: nat)
    | Draining(reason: Reason)
    | Answered
    | Failed

  /** An upload asks again at once when refused; a fetch first discards the response body. */
  datatype Client = Client(upload: bool, phase: Phase)

  datatype World = World(auth: Auth, clients: seq<Client>)

  datatype Step =
    | Begin(upload: bool)
    | Ask(client: nat)
    | Continue(client: nat)
    | Accept(client: nat)
    | Refuse(client: nat)
    | Drained(client: nat)
    | Abort(client: nat)
    | UserSubmits(candidate: string)
    | UserCancels

  function Await(p: Promise): Phase {
    match p
    case Resolved(token) => Resuming(token)
    case Unresolved(promise) => Waiting(promise)
  }

  function PhaseOf(w: World, i: nat): Phase
    requires i < |w.clients|
  {
    w.clients[i].phase
  }

  function SetPhase(clients: seq<Client>, i: nat, phase: Phase): (r: seq<Client>)
    requires i < |clients|
    ensures |r| == |clients|
  {
    clients[i := clients[i].(phase := phase)]
  }

  /** The challenge call of a retry loop. */
  function AskAgain(w: World, i: nat, reason: Reason): World
    requires i < |w.clients|
  {
    var (auth, promise) := Challenged(w.auth, reason);
    World(auth, SetPhase(w.clients, i, Await(promise)))
  }

  function Settle(phase: Phase, promise: Option<nat>, outcome: Phase): Phase {
    if phase.Waiting? && promise == Some(phase.promise) then outcome else phase
  }

  /** Resolving or rejecting a promise reaches every request that waits on it. */
  function SettleAll(clients: seq<Client>, promise: Option<nat>, outcome: Phase): (r: seq<Client>)
    ensures |r| == |clients|
    ensures forall i :: 0 <= i < |clients| ==> r[i] == clients[i].(phase := Settle(clients[i].phase, promise, outcome))
  {
    seq(|clients|, i requires 0 <= i < |clients| => clients[i].(phase := Settle(clients[i].phase, promise, outcome)))
  }

  function Refused(w: World, i: nat): World
    requires i < |w.clients| && PhaseOf(w, i).InFlight?
  {
    var generation := PhaseOf(w, i).generation;
    var reason := if generation == w.auth.generation then Invalid else Required;
    var next := w.(auth := Invalidated(w.auth, generation));
    if w.clients[i].upload then AskAgain(next, i, reason)
    else next.(clients := SetPhase(w.clients, i, Draining(reason)))
  }

  /**
   * One step. The user can only use an open dialog, and only after all continuations of the last
   * submit have run.
   */
  predicate Enabled(w: World, step: Step) {
    match step
    case Begin(_) => true
    case Ask(i) => i < |w.clients| && PhaseOf(w, i) == Starting
    case Continue(i) => i < |w.clients| && PhaseOf(w, i).Resuming?
    case Accept(i) => i < |w.clients| && PhaseOf(w, i).InFlight?
    case Refuse(i) => i < |w.clients| && PhaseOf(w, i).InFlight?
    case Drained(i) => i < |w.clients| && PhaseOf(w, i).Draining?
    case Abort(i) => i < |w.clients|
    case UserSubmits(_) => w.auth.open && forall i :: 0 <= i < |w.clients| ==> !PhaseOf(w, i).Resuming?
    case UserCancels => w.auth.open
  }

  function After(w: World, step: Step): World
    requires Enabled(w, step)
  {
    match step
    case Begin(upload) => w.(clients := w.clients + [Client(upload, Starting)])
    case Ask(i) => AskAgain(w, i, Required)
    case Continue(i) => w.(clients := SetPhase(w.clients, i, InFlight(PhaseOf(w, i).token, w.auth.generation)))
    case Accept(i) => w.(clients := SetPhase(w.clients, i, Answered))
    case Refuse(i) => Refused(w, i)
    case Drained(i) => AskAgain(w, i, PhaseOf(w, i).reason)
    case Abort(i) => w.(clients := SetPhase(w.clients, i, Failed))
    case UserSubmits(candidate) =>
      var auth := Submitted(w.auth, candidate);
      if BlankText(candidate) then w
      else World(auth, SettleAll(w.clients, w.auth.pending, Resuming(candidate)))
    case UserCancels => World(CancelledAuth(w.auth), SettleAll(w.clients, w.auth.pending, Failed))
  }

  // ----- the invariant -----

  predicate PhaseSound(a: Auth, phase: Phase) {
    match phase
    case Waiting(promise) => a.pending == Some(promise)
    case Resuming(token) => a.token.Some? ==> token == a.token.value
    case InFlight(token, generation) =>
      generation <= a.generation && (generation == a.generation && a.token.Some? ==> token == a.token.value)
    case _ => true
  }

  ghost predicate Sound(w: World) {
    Coherent(w.auth) && forall i :: 0 <= i < |w.clients| ==> PhaseSound(w.auth, PhaseOf(w, i))
  }

  /** A step that discards `token` may only be the refusal of a request that carried it. */
  predicate DiscardIsDeserved(w: World, step: Step, next: World) {
    w.auth.token.Some? && next.auth.token.None? ==>
      step.Refuse? && step.client < |w.clients|
        && PhaseOf(w, step.client) == InFlight(w.auth.token.value, w.auth.generation)
  }

  /** No fetch that just discarded the token is still discarding its response body. */
  predicate NoInvalidDrain(w: World) {
    forall i :: 0 <= i < |w.clients| ==> PhaseOf(w, i) != Draining(Invalid)
  }

  /** While such a fetch exists no token is held. */
  predicate DrainsEmpty(w: World) {
    NoInvalidDrain(w) || w.auth.token.None?
  }

  lemma AskKeepsSound(w: World, i: nat, reason: Reason)
    requires Sound(w) && i < |w.clients|
    ensures Sound(AskAgain(w, i, reason))
  {
    var next := AskAgain(w, i, reason);
    forall k | 0 <= k < |next.clients| ensures PhaseSound(next.auth, PhaseOf(next, k)) {
      assert k != i ==> PhaseOf(next, k) == PhaseOf(w, k);
      assert PhaseSound(w.auth, PhaseOf(w, k));
    }
  }

  lemma StepKeepsSound(w: World, step: Step)
    requires Sound(w) && Enabled(w, step)
    ensures Sound(After(w, step))
  {
    hide BlankText;
    var next := After(w, step);
    match step {
      case Ask(i) => AskKeepsSound(w, i, Required);
      case Drained(i) => AskKeepsSound(w, i, PhaseOf(w, i).reason);
      case Refuse(i) =>
        var cleared := w.(auth := Invalidated(w.auth, PhaseOf(w, i).generation));
        assert forall k :: 0 <= k < |w.clients| ==> PhaseOf(cleared, k) == PhaseOf(w, k);
        assert Sound(cleared);
        if w.clients[i].upload {
          AskKeepsSound(cleared, i, if PhaseOf(w, i).generation == w.auth.generation then Invalid else Required);
        } else {
          assert forall k :: 0 <= k < |w.clients| && k != i ==> PhaseOf(next, k) == PhaseOf(cleared, k);
        }
      case _ =>
        forall k | 0 <= k < |next.clients| ensures PhaseSound(next.auth, PhaseOf(next, k)) {
          if k < |w.clients| { assert PhaseSound(w.auth, PhaseOf(w, k)); }
        }
    }
  }

  /** Every token change raises the generation, which never falls. */
  lemma TokenChangesRaiseGeneration(w: World, step: Step)
    requires Enabled(w, step)
    ensures w.auth.generation <= After(w, step).auth.generation
    ensures w.auth.token != After(w, step).auth.token ==> w.auth.generation < After(w, step).auth.generation
  {
  }

  /** Which steps discard a held token: a deserved refusal, or the end of a fetch's invalid drain. */
  lemma WhoDiscards(w: World, step: Step)
    requires Sound(w) && Enabled(w, step)
    ensures w.auth.token.Some? && After(w, step).auth.token.None? <==>
      w.auth.token.Some?
      && ((step.Refuse? && PhaseOf(w, step.client).generation == w.auth.generation)
          || (step.Drained? && PhaseOf(w, step.client).reason == Invalid))
    ensures !step.Drained? ==> DiscardIsDeserved(w, step, After(w, step))
  {
    hide BlankText;
    if step.Refuse? { assert PhaseSound(w.auth, PhaseOf(w, step.client)); }
  }

  // ----- whole runs -----

  /** A run lists the steps taken; `Reached` is the world after them. */
  ghost predicate Runs(w: World, steps: seq<Step>)
    decreases |steps|
  {
    steps == [] || (Enabled(w, steps[0]) && Runs(After(w, steps[0]), steps[1..]))
  }

  ghost function Reached(w: World, steps: seq<Step>): World
    requires Runs(w, steps)
    decreases |steps|
  {
    if steps == [] then w else Reached(After(w, steps[0]), steps[1..])
  }

  lemma {:induction false} EveryRunIsSound(w: World, steps: seq<Step>)
    requires Sound(w) && Runs(w, steps)
    ensures Sound(Reached(w, steps))
    decreases |steps|
  {
    if steps != [] {
      StepKeepsSound(w, steps[0]);
      EveryRunIsSound(After(w, steps[0]), steps[1..]);
    }
  }

  /** Over any run an unchanged generation means an unchanged token. */
  lemma {:induction false} SameGenerationSameToken(w: World, steps: seq<Step>)
    requires Runs(w, steps)
    ensures w.auth.generation <= Reached(w, steps).auth.generation
    ensures w.auth.generation == Reached(w, steps).auth.generation ==> w.auth.token == Reached(w, steps).auth.token
    decreases |steps|
  {
    if steps != [] {
      TokenChangesRaiseGeneration(w, steps[0]);
      SameGenerationSameToken(After(w, steps[0]), steps[1..]);
    }
  }

  /** The user does not submit while a fetch that discarded the token is discarding its response. */
  ghost predicate CalmRun(w: World, steps: seq<Step>)
    decreases |steps|
  {
    steps == [] ||
    (Enabled(w, steps[0]) && (steps[0].UserSubmits? ==> NoInvalidDrain(w)) && CalmRun(After(w, steps[0]), steps[1..]))
  }

  /** Every token discarded along the run was carried by the request whose refusal discarded it. */
  ghost predicate DiscardsDeserved(w: World, steps: seq<Step>)
    decreases |steps|
  {
    steps == [] ||
    (Enabled(w, steps[0]) && DiscardIsDeserved(w, steps[0], After(w, steps[0]))
      && DiscardsDeserved(After(w, steps[0]), steps[1..]))
  }

  /** A fetch ends the drain after which it asks again as invalid, while a token is held. */
  predicate Loses(w: World, step: Step) {
    step.Drained? && step.client < |w.clients| && PhaseOf(w, step.client) == Draining(Invalid) && w.auth.token.Some?
  }

  /** No step of the run ends an invalid drain while a token is held. */
  ghost predicate NothingLost(w: World, steps: seq<Step>)
    requires Runs(w, steps)
    decreases |steps|
  {
    steps == [] || (!Loses(w, steps[0]) && NothingLost(After(w, steps[0]), steps[1..]))
  }

  lemma DeservedExactly(w: World, step: Step)
    requires Sound(w) && Enabled(w, step)
    ensures DiscardIsDeserved(w, step, After(w, step)) <==> !Loses(w, step)
  {
    WhoDiscards(w, step);
    hide BlankText;
  }

  /** A run discards only tokens that failed exactly when no step of it ends an invalid drain with a token held. */
  lemma {:induction false} DiscardsDeservedExactly(w: World, steps: seq<Step>)
    requires Sound(w) && Runs(w, steps)
    ensures DiscardsDeserved(w, steps) <==> NothingLost(w, steps)
    decreases |steps|
  {
    hide After, Loses, DiscardIsDeserved;
    if steps != [] {
      StepKeepsSound(w, steps[0]);
      DeservedExactly(w, steps[0]);
      DiscardsDeservedExactly(After(w, steps[0]), steps[1..]);
    }
  }

  lemma CalmRunsDiscardOnlyFailedTokens(w: World, steps: seq<Step>)
    requires Sound(w) && DrainsEmpty(w) && CalmRun(w, steps)
    ensures Runs(w, steps) && DiscardsDeserved(w, steps)
  {
    CalmRunsLoseNothing(w, steps);
    DiscardsDeservedExactly(w, steps);
  }

  lemma {:induction false} CalmRunsLoseNothing(w: World, steps: seq<Step>)
    requires Sound(w) && DrainsEmpty(w) && CalmRun(w, steps)
    ensures Runs(w, steps) && NothingLost(w, steps)
    decreases |steps|
  {
    hide After, Enabled;
    if steps != [] {
      StepKeepsSound(w, steps[0]);
      DrainsStayEmpty(w, steps[0]);
      CalmRunsLoseNothing(After(w, steps[0]), steps[1..]);
    }
  }

  lemma DrainsStayEmpty(w: World, step: Step)
    requires Sound(w) && DrainsEmpty(w) && Enabled(w, step) && (step.UserSubmits? ==> NoInvalidDrain(w))
    ensures DrainsEmpty(After(w, step)) && !Loses(w, step)
  {
    hide BlankText;
    var next := After(w, step);
    if next.auth.token.Some? && !step.Begin? {
      forall k | 0 <= k < |next.clients| ensures PhaseOf(next, k) != Draining(Invalid) {
        assert PhaseOf(w, k) == Draining(Invalid) ==> w.auth.token.None?;
      }
    } else if step.Begin? {
      assert forall k :: 0 <= k < |w.clients| ==> PhaseOf(next, k) == PhaseOf(w, k);
    }
  }

  /** From the start: every run keeps the invariant, and discards only failed tokens exactly if nothing is lost. */
  lemma FromTheStart(steps: seq<Step>)
    requires Runs(World(Initial(), []), steps)
    ensures Sound(Reached(World(Initial(), []), steps))
    ensures DiscardsDeserved(World(Initial(), []), steps) <==> NothingLost(World(Initial(), []), steps)
    ensures CalmRun(World(Initial(), []), steps) ==> DiscardsDeserved(World(Initial(), []), steps)
  {
    EveryRunIsSound(World(Initial(), []), steps);
    DiscardsDeservedExactly(World(Initial(), []), steps);
    if CalmRun(World(Initial(), []), steps) { CalmRunsDiscardOnlyFailedTokens(World(Initial(), []), steps); }
  }

  ghost predicate OnlyUploads(w: World) {
    forall i :: 0 <= i < |w.clients| ==> w.clients[i].upload && !PhaseOf(w, i).Draining?
  }

  /** With uploads alone the guard is not needed. */
  lemma UploadsNeedNoGuard(w: World, steps: seq<Step>)
    requires Sound(w) && OnlyUploads(w) && Runs(w, steps)
    requires forall s :: s in steps ==> !(s.Begin? && !s.upload)
    ensures DiscardsDeserved(w, steps)
  {
    UploadsLoseNothing(w, steps);
    DiscardsDeservedExactly(w, steps);
  }

  lemma {:induction false} UploadsLoseNothing(w: World, steps: seq<Step>)
    requires OnlyUploads(w) && Runs(w, steps)
    requires forall s :: s in steps ==> !(s.Begin? && !s.upload)
    ensures NothingLost(w, steps)
    decreases |steps|
  {
    hide BlankText;
    if steps != [] {
      var next := After(w, steps[0]);
      assert steps[0] in steps;
      forall k | 0 <= k < |next.clients| ensures next.clients[k].upload && !PhaseOf(next, k).Draining? {
        assert k < |w.clients| ==> w.clients[k].upload && !PhaseOf(w, k).Draining?;
      }
      UploadsLoseNothing(next, steps[1..]);
    }
  }

  /** A submit hands its token to every waiting request and a cancel ends them all. */
  lemma NobodyIsLeftWaiting(w: World, step: Step, i: nat)
    requires Sound(w) && Enabled(w, step) && i < |w.clients| && PhaseOf(w, i).Waiting?
    ensures w.auth.open
    ensures step.UserSubmits? && !BlankText(step.candidate) ==> PhaseOf(After(w, step), i) == Resuming(step.candidate)
    ensures step.UserCancels? ==> PhaseOf(After(w, step), i) == Failed
  {
    assert PhaseSound(w.auth, PhaseOf(w, i));
  }

  // ----- what a challenge shows and gives -----

  /**
   * The user's answer: blank text changes nothing; any other text becomes the token of all that wait, and a
   * cancellation fails them all. Both close the dialog, and touch no request that does not wait.
   */
  lemma UserAnswers(w: World, step: Step)
    requires Sound(w) && Enabled(w, step) && (step.UserSubmits? || step.UserCancels?)
    ensures var (next, blank) := (After(w, step), step.UserSubmits? && BlankText(step.candidate));
      && (blank ==> next == w)
      && (!blank ==> !next.auth.open && next.auth.pending.None?)
      && (!blank ==> next.auth.token == (if step.UserSubmits? then Some(step.candidate) else None))
      && |next.clients| == |w.clients|
      && forall k :: 0 <= k < |w.clients| ==>
           next.clients[k].upload == w.clients[k].upload
           && PhaseOf(next, k) ==
                if blank || !PhaseOf(w, k).Waiting? then PhaseOf(w, k)
                else if step.UserSubmits? then Resuming(step.candidate) else Failed
  {
    hide BlankText;
    assert forall k :: 0 <= k < |w.clients| ==> PhaseSound(w.auth, PhaseOf(w, k));
  }

  /** The reason for which a step asks for a token, when it asks. */
  function Asks(w: World, step: Step): Option<Reason>
    requires Enabled(w, step)
  {
    match step
    case Ask(_) => Some(Required)
    case Drained(i) => Some(PhaseOf(w, i).reason)
    case Refuse(i) =>
      if w.clients[i].upload
      then Some(if PhaseOf(w, i).generation == w.auth.generation then Invalid else Required)
      else None
    case _ => None
  }

  /**
   * A request that asks goes on at once with the held token, unless that token has just been refused; otherwise
   * it waits, the dialog is open and shows the reason of this request, the last one to ask.
   */
  lemma AskingMeans(w: World, step: Step)
    requires Sound(w) && Enabled(w, step) && Asks(w, step).Some?
    ensures var (next, reason) := (After(w, step), Asks(w, step).value);
      var phase := PhaseOf(next, step.client);
      if reason == Required && w.auth.token.Some? then
        phase == Resuming(w.auth.token.value) && next.auth == w.auth
      else
        phase.Waiting? && next.auth.pending == Some(phase.promise) && next.auth.token.None?
        && next.auth.open && next.auth.reason == reason
        && (w.auth.pending.Some? ==> next.auth.pending == w.auth.pending)
  {
    hide BlankText;
    if step.Refuse? { assert PhaseSound(w.auth, PhaseOf(w, step.client)); }
  }

  /** No other step but the user's opens, closes or relabels the dialog, or touches another request. */
  lemma OthersLeaveTheDialog(w: World, step: Step)
    requires Enabled(w, step) && Asks(w, step).None? && !step.UserSubmits? && !step.UserCancels?
    ensures var next := After(w, step);
      && next.auth.open == w.auth.open && next.auth.reason == w.auth.reason && next.auth.pending == w.auth.pending
      && forall k :: 0 <= k < |w.clients| && (step.Begin? || k != step.client) ==> next.clients[k] == w.clients[k]
  {
  }

  // ----- the guard is needed -----

  /**
   * Without the guard: any token submitted while a fetch that discarded the previous one is still
   * discarding its response body is thrown away, although no request has failed with it.
   */
  lemma SubmitDuringDrainIsLost(w: World, i: nat, candidate: string)
    requires Sound(w) && i < |w.clients| && PhaseOf(w, i) == Draining(Invalid)
    requires Enabled(w, UserSubmits(candidate)) && !BlankText(candidate)
    ensures var steps := [UserSubmits(candidate), Drained(i)];
      Runs(w, steps) && !DiscardsDeserved(w, steps) && Reached(w, steps).auth.token.None?
  {
    hide BlankText;
    var steps := [UserSubmits(candidate), Drained(i)];
    var mid := After(w, steps[0]);
    assert mid.auth.token == Some(candidate) && PhaseOf(mid, i) == Draining(Invalid);
    var end := After(mid, Drained(i));
    assert end.auth.token.None? && !DiscardIsDeserved(mid, Drained(i), end);
    assert steps[1..] == [Drained(i)] && steps[1..][1..] == [];
    assert Runs(mid, [Drained(i)]) && !DiscardsDeserved(mid, [Drained(i)]) && Reached(mid, [Drained(i)]) == end;
  }

  predicate SubmitWouldBeLost(w: World, token: string) {
    |w.clients| > 0 && PhaseOf(w, 0) == Draining(Invalid) && Enabled(w, UserSubmits(token))
  }

  /** Such a world is reached: two fetches are refused, and the second opens the dialog again. */
  lemma DrainWithOpenDialogIsReached(token: string)
    requires !BlankText(token)
    ensures exists steps ::
      Runs(World(Initial(), []), steps)
      && SubmitWouldBeLost(Reached(World(Initial(), []), steps), token)
  {
    hide BlankText, Runs, Reached;
    var steps, w := TwoSent(token);
    var invalid, sent := Client(false, Draining(Invalid)), w.clients[1];
    steps, w := Extend(steps, w, Refuse(0), World(Auth(None, 2, None, false, Required, 1), [invalid, sent]));
    steps, w := Extend(steps, w, Refuse(1), w.(clients := [invalid, Client(false, Draining(Required))]));
    steps, w := Extend(steps, w, Drained(1),
      World(Auth(None, 2, Some(1), true, Required, 2), [invalid, Client(false, Waiting(1))]));
    assert SubmitWouldBeLost(w, token);
  }

  lemma TwoSent(token: string) returns (steps: seq<Step>, w: World)
    requires !BlankText(token)
    ensures Runs(World(Initial(), []), steps) && w == Reached(World(Initial(), []), steps)
    ensures w == World(Auth(Some(token), 1, None, false, Required, 1),
                       [Client(false, InFlight(token, 1)), Client(false, InFlight(token, 1))])
  {
    hide BlankText, Runs, Reached;
    steps, w := OneSent(token);
    var sent := w.clients[0];
    steps, w := Extend(steps, w, Begin(false), w.(clients := [sent, Client(false, Starting)]));
    steps, w := Extend(steps, w, Ask(1), w.(clients := [sent, Client(false, Resuming(token))]));
    steps, w := Extend(steps, w, Continue(1), w.(clients := [sent, sent]));
  }

  lemma OneSent(token: string) returns (steps: seq<Step>, w: World)
    requires !BlankText(token)
    ensures Runs(World(Initial(), []), steps) && w == Reached(World(Initial(), []), steps)
    ensures w == World(Auth(Some(token), 1, None, false, Required, 1), [Client(false, InFlight(token, 1))])
  {
    hide BlankText;
    steps, w := [], World(Initial(), []);
    assert Runs(w, []);
    hide Runs, Reached;
    steps, w := Extend(steps, w, Begin(false), World(Initial(), [Client(false, Starting)]));
    steps, w := Extend(steps, w, Ask(0), World(Auth(None, 0, Some(0), true, Required, 1), [Client(false, Waiting(0))]));
    steps, w := Extend(steps, w, UserSubmits(token),
      World(Auth(Some(token), 1, None, false, Required, 1), [Client(false, Resuming(token))]));
    steps, w := Extend(steps, w, Continue(0), w.(clients := [Client(false, InFlight(token, 1))]));
  }

  /** Taking one more step at the end of a run from the initial world. */
  lemma Extend(steps: seq<Step>, w: World, step: Step, next: World) returns (longer: seq<Step>, end: World)
    requires Runs(World(Initial(), []), steps) && w == Reached(World(Initial(), []), steps)
    requires Enabled(w, step) && After(w, step) == next
    ensures longer == steps + [step] && end == next
    ensures Runs(World(Initial(), []), longer) && end == Reached(World(Initial(), []), longer)
  {
    longer, end := steps + [step], next;
    ExtendFrom(World(Initial(), []), steps, step);
  }

  lemma {:induction false} ExtendFrom(w: World, steps: seq<Step>, step: Step)
    requires Runs(w, steps) && Enabled(Reached(w, steps), step)
    ensures Runs(w, steps + [step]) && Reached(w, steps + [step]) == After(Reached(w, steps), step)
    decreases |steps|
  {
    hide Enabled, After;
    if steps == [] {
      assert [step][1..] == [] && steps + [step] == [step];
      assert Runs(After(w, step), []);
    } else {
      ExtendFrom(After(w, steps[0]), steps[1..], step);
      assert (steps + [step])[1..] == steps[1..] + [step];
    }
  }
}
