/** The nonce-counter table of the digest authentication code: `struct MHD_NonceNc`
    and `check_nonce_nc`.

    Every slot of the table remembers the largest counter value it has seen and a
    64-bit mask over the values just below it.  The specification of the slot is a
    `Window`: a maximum and the *set* of values that arrived late.  No mask and no
    shift occurs in it; `Tracks` says how the mask encodes the set. */
module NonceWindow {
  import opened CStrings

  type uint64 = n: int | 0 <= n < UINT64_LIMIT

  const MAX_NONCE_LENGTH: nat := 129

  // ------------------------------------------------------------------ specification

  /** What a slot stands for: the registered nonce, the largest counter value
      presented with it and the values that were accepted below the maximum. */
  datatype Window = Window(nonce: string, max: uint64, late: set<uint64>)

  datatype Verdict = Registered | Late | Forward | Stale {
    predicate Accepted() { !Stale? }
  }

  datatype Request = Request(nonce: string, nc: uint64)

  /** A value below the maximum may still arrive if it is at most 64 behind,
      unless adding 64 to it would leave the range of the counter. */
  predicate InReach(w: Window, nc: uint64) {
    nc < w.max <= nc + 64 < UINT64_LIMIT
  }

  function Judge(w: Window, q: Request): Verdict {
    if q.nc == 0 then Registered
    else if InReach(w, q.nc) && q.nc !in w.late then Late
    else if w.max < q.nc && w.nonce == q.nonce then Forward
    else Stale
  }

  function Present(w: Window, q: Request): Window {
    match Judge(w, q)
    case Registered => Window(q.nonce, 0, {})
    case Late => w.(late := w.late + {q.nc})
    case Forward => w.(max := q.nc)
    case Stale => w
  }

  // ------------------------------------------------------------------ the bit mask

  /** A position in the mask. */
  type index = bv6

  predicate Bit(mask: bv64, k: index) {
    (mask >> k) & 1 == 1
  }

  predicate IsClear(mask: bv64, k: index) {
    ((1 as bv64) << k) & mask == 0
  }

  function WithBit(mask: bv64, k: index): bv64 {
    mask | ((1 as bv64) << k)
  }

  function Shifted(mask: bv64, s: index): bv64 {
    mask << s
  }

  ghost predicate IsLate(w: Window, v: int) {
    0 <= v < UINT64_LIMIT && v in w.late
  }

  /** Bit k of the mask stands for the value k+1 below the maximum, and only
      values below the maximum are ever recorded as late. */
  ghost predicate Tracks(mask: bv64, w: Window) {
    && (forall v :: v in w.late ==> 0 < v < w.max)
    && (forall k: index :: Bit(mask, k) <==> IsLate(w, w.max - 1 - k as int))
  }

  function ToIndex(n: nat): (k: index)
    requires n < 64
    ensures k as int == n
  {
    n as index
  }

  lemma IndexSuccessor(k: index)
    requires k < 63
    ensures (k + 1) as int == k as int + 1
  {
  }

  lemma {:induction false} IndexSum(j: index, k: index)
    requires j <= 63 - k
    ensures (j + k) as int == j as int + k as int
    decreases k
  {
    if k == 0 {
    } else {
      var i := k - 1;
      IndexSum(j, i);
      IndexSuccessor(i);
      IndexSuccessor(j + i);
    }
  }

  lemma IndexOrder(j: index, k: index)
    ensures j <= k <==> j as int <= k as int
    ensures 0 <= k as int < 64
  {
  }

  lemma TestReadsBit(mask: bv64, k: index)
    ensures IsClear(mask, k) <==> !Bit(mask, k)
  {
  }

  lemma OrSetsBit(mask: bv64, j: index, k: index)
    ensures Bit(mask | ((1 as bv64) << j), k) <==> k == j || Bit(mask, k)
  {
  }

  lemma ShiftThenRead(mask: bv64, s: index, k: index)
    ensures ((mask << s) >> k) & 1 == if k < s then 0 else (mask >> (k - s)) & 1
  {
  }

  lemma ShiftMovesBit(mask: bv64, s: index, k: index)
    ensures Bit(mask << s, k) <==> s <= k && Bit(mask, k - s)
  {
    ShiftThenRead(mask, s, k);
  }

  lemma TestFindsLate(mask: bv64, w: Window, nc: uint64, j: index)
    requires Tracks(mask, w) && nc < w.max
    requires j as int == w.max - nc - 1
    ensures IsClear(mask, j) <==> nc !in w.late
  {
    hide Bit;
    TestReadsBit(mask, j);
    assert IsLate(w, w.max - 1 - j as int) <==> nc in w.late;
  }

  /** The late branch: setting one bit records one value. */
  lemma LateKeepsTracking(mask: bv64, w: Window, q: Request, j: index)
    requires Tracks(mask, w) && Judge(w, q) == Late
    requires j as int == w.max - q.nc - 1
    ensures Tracks(WithBit(mask, j), Present(w, q))
  {
    hide Bit;
    var mask' := mask | ((1 as bv64) << j);
    forall k: index
      ensures Bit(mask', k) <==> IsLate(Present(w, q), w.max - 1 - k as int)
    {
      OrSetsBit(mask, j, k);
      IndexOrder(j, k);
      IndexOrder(k, j);
    }
  }

  lemma ShiftedMovesBit(mask: bv64, s: index, k: index)
    ensures Bit(Shifted(mask, s), k) <==> s <= k && Bit(mask, k - s)
  {
    hide Bit;
    ShiftMovesBit(mask, s, k);
  }

  lemma IndexDifference(s: index, k: index)
    requires s <= k
    ensures (k - s) as int == k as int - s as int
  {
    IndexSum(k - s, s);
  }

  /** Bit k of a shifted mask is the bit s below it, if there is one. */
  lemma ShiftedBit(mask: bv64, s: index, k: index) returns (j: index)
    ensures s as int <= k as int ==> j as int == k as int - s as int && (Bit(Shifted(mask, s), k) <==> Bit(mask, j))
    ensures k as int < s as int ==> !Bit(Shifted(mask, s), k)
  {
    hide Bit, Shifted;
    j := k - s;
    ShiftedMovesBit(mask, s, k);
    IndexOrder(s, k);
    if s <= k {
      IndexDifference(s, k);
    }
  }

  /** A jump by less than 64 shifts the mask. */
  lemma JumpKeepsTracking(mask: bv64, w: Window, q: Request, s: index)
    requires Tracks(mask, w) && Judge(w, q) == Forward
    requires s as int == q.nc - w.max
    ensures Tracks(Shifted(mask, s), Present(w, q))
  {
    hide Bit, Shifted;
    forall k: index
      ensures Bit(Shifted(mask, s), k) <==> IsLate(Present(w, q), q.nc - 1 - k as int)
    {
      var j := ShiftedBit(mask, s, k);
    }
  }

  /** A jump by 64 or more leaves no late value within reach of the mask. */
  lemma LeapKeepsTracking(mask: bv64, w: Window, q: Request)
    requires Tracks(mask, w) && Judge(w, q) == Forward
    requires 64 <= q.nc - w.max
    ensures Tracks(0, Present(w, q))
  {
    forall k: index
      ensures Bit(0, k) <==> IsLate(Present(w, q), q.nc - 1 - k as int)
    {
      IndexOrder(k, k);
    }
  }

  lemma ClearTracksNothing(nonce: string)
    ensures Tracks(0, Window(nonce, 0, {}))
  {
  }

  // ------------------------------------------------------------------ runs of one slot

  /** The window after a run of requests that all hash to one slot. */
  function After(w: Window, run: seq<Request>): Window {
    if run == [] then w else Present(After(w, run[..|run| - 1]), run[|run| - 1])
  }

  function VerdictAt(w: Window, run: seq<Request>, i: nat): Verdict
    requires i < |run|
  {
    Judge(After(w, run[..i]), run[i])
  }

  /** No request with index in [i, j) registers a nonce. */
  ghost predicate Quiet(run: seq<Request>, i: nat, j: nat)
    requires i <= j <= |run|
  {
    forall k :: i <= k < j ==> run[k].nc != 0
  }

  /** Late values lie below the maximum. */
  ghost predicate Sound(w: Window) {
    forall v :: v in w.late ==> v < w.max
  }

  lemma {:induction false} StaysSound(w: Window, run: seq<Request>)
    requires Sound(w)
    ensures Sound(After(w, run))
  {
    if run == [] {
    } else {
      StaysSound(w, run[..|run| - 1]);
    }
  }

  /** Value v was accepted by the late branch at some index in [i, j). */
  ghost predicate CameLate(w: Window, run: seq<Request>, i: nat, j: nat, v: uint64)
    requires j <= |run|
  {
    exists k :: i <= k < j && run[k].nc == v && VerdictAt(w, run, k) == Late
  }

  lemma OneMore(w: Window, run: seq<Request>, i: nat)
    requires i < |run|
    ensures After(w, run[..i + 1]) == Present(After(w, run[..i]), run[i])
  {
    assert run[..i + 1][..i] == run[..i];
  }

  lemma PresentGrows(w: Window, q: Request)
    requires q.nc != 0
    ensures var u := Present(w, q);
            w.max <= u.max && w.late <= u.late && w.nonce == u.nonce &&
            forall v: uint64 :: v in u.late <==> v in w.late || (q.nc == v && Judge(w, q) == Late)
  {
  }

  /** Between registrations the maximum only grows and no late value is forgotten. */
  lemma {:induction false} WindowGrows(w: Window, run: seq<Request>, i: nat, j: nat)
    requires i <= j <= |run| && Quiet(run, i, j)
    ensures After(w, run[..i]).max <= After(w, run[..j]).max
    ensures After(w, run[..i]).late <= After(w, run[..j]).late
    ensures After(w, run[..i]).nonce == After(w, run[..j]).nonce
    decreases j
  {
    if i == j {
    } else {
      hide After;
      WindowGrows(w, run, i, j - 1);
      OneMore(w, run, j - 1);
      PresentGrows(After(w, run[..j - 1]), run[j - 1]);
    }
  }

  /** A registration restarts the slot, whatever it held before. */
  lemma RegistrationRestarts(w: Window, run: seq<Request>, i: nat)
    requires i < |run| && run[i].nc == 0
    ensures VerdictAt(w, run, i) == Registered
    ensures After(w, run[..i + 1]) == Window(run[i].nonce, 0, {})
  {
    OneMore(w, run, i);
  }

  lemma CameLateAtLast(w: Window, run: seq<Request>, i: nat, j: nat, v: uint64)
    requires i < j <= |run|
    ensures CameLate(w, run, i, j, v) <==>
              CameLate(w, run, i, j - 1, v) || (run[j - 1].nc == v && VerdictAt(w, run, j - 1) == Late)
  {
    hide After, Judge;
    if CameLate(w, run, i, j - 1, v) {
      var k :| i <= k < j - 1 && run[k].nc == v && VerdictAt(w, run, k) == Late;
      assert CameLate(w, run, i, j, v);
    }
  }

  lemma VerdictIs(w: Window, run: seq<Request>, i: nat)
    requires i < |run|
    ensures VerdictAt(w, run, i) == Judge(After(w, run[..i]), run[i])
  {
  }

  /** The late values of a window are exactly the counter values that the late
      branch accepted since index i. */
  lemma {:induction false} LateIsHistory(w: Window, run: seq<Request>, i: nat, j: nat, v: uint64)
    requires i <= j <= |run| && Quiet(run, i, j)
    ensures v in After(w, run[..j]).late <==> v in After(w, run[..i]).late || CameLate(w, run, i, j, v)
    decreases j
  {
    hide After, Judge, Present;
    if i == j {
    } else {
      hide CameLate, VerdictAt;
      LateIsHistory(w, run, i, j - 1, v);
      OneMore(w, run, j - 1);
      CameLateAtLast(w, run, i, j, v);
      PresentGrows(After(w, run[..j - 1]), run[j - 1]);
      VerdictIs(w, run, j - 1);
    }
  }

  /** The mask of a slot is the recent history of its late branch: bit k is set
      exactly when the value k+1 below the maximum was accepted late since the
      registration that opened the window. */
  lemma MaskIsHistory(mask: bv64, nonce: string, run: seq<Request>, k: index)
    requires Quiet(run, 0, |run|)
    requires Tracks(mask, After(Window(nonce, 0, {}), run))
    ensures var w := Window(nonce, 0, {});
            var v := After(w, run).max - 1 - k as int;
            Bit(mask, k) <==> 0 <= v && CameLate(w, run, 0, |run|, v)
  {
    hide Bit;
    var w := Window(nonce, 0, {});
    assert run[..|run|] == run && run[..0] == [];
    var v := After(w, run).max - 1 - k as int;
    assert k as int >= 0 by { IndexOrder(k, k); }
    assert Bit(mask, k) <==> IsLate(After(w, run), v);
    if 0 <= v { LateIsHistory(w, run, 0, |run|, v); }
  }

  /** Re-presenting a counter value that was already accepted since the last
      registration: it is accepted again exactly when it was accepted as a
      maximum, has been superseded by a maximum at most 64 above it, and has not
      been accepted late in the meantime. */
  lemma {:induction false} ReplayExactly(w: Window, run: seq<Request>, i: nat, j: nat)
    requires Sound(w) && i < j < |run| && Quiet(run, i, j + 1)
    requires run[i].nc == run[j].nc && VerdictAt(w, run, i).Accepted()
    ensures VerdictAt(w, run, j).Accepted() <==>
              && VerdictAt(w, run, i) == Forward
              && InReach(After(w, run[..j]), run[j].nc)
              && !CameLate(w, run, i + 1, j, run[j].nc)
    ensures VerdictAt(w, run, j).Accepted() ==> VerdictAt(w, run, j) == Late
  {
    var v := run[j].nc;
    OneMore(w, run, i);
    WindowGrows(w, run, i + 1, j);
    LateIsHistory(w, run, i + 1, j, v);
    StaysSound(w, run[..i]);
  }

  /** So each counter value is accepted at most once as a maximum and at most
      once late, hence at most twice. */
  lemma AtMostTwice(w: Window, run: seq<Request>, i: nat, j: nat, k: nat)
    requires Sound(w) && i < j < k < |run| && Quiet(run, i, k + 1)
    requires run[i].nc == run[j].nc == run[k].nc
    ensures !(VerdictAt(w, run, i).Accepted() && VerdictAt(w, run, j).Accepted() && VerdictAt(w, run, k).Accepted())
  {
    if VerdictAt(w, run, i).Accepted() && VerdictAt(w, run, j).Accepted() && VerdictAt(w, run, k).Accepted() {
      ReplayExactly(w, run, i, j);
      ReplayExactly(w, run, j, k);
    }
  }

  /** The two acceptances do occur: a superseded maximum is accepted again, because
      a forward jump does not set the bit of the maximum it replaces. */
  lemma SupersededMaximumIsAcceptedAgain(nonce: string)
    ensures var run := [Request(nonce, 0), Request(nonce, 1), Request(nonce, 2), Request(nonce, 1), Request(nonce, 1)];
            forall w :: && VerdictAt(w, run, 1) == Forward
                        && VerdictAt(w, run, 2) == Forward
                        && VerdictAt(w, run, 3) == Late
                        && VerdictAt(w, run, 4) == Stale
  {
    var run := [Request(nonce, 0), Request(nonce, 1), Request(nonce, 2), Request(nonce, 1), Request(nonce, 1)];
    forall w: Window
      ensures && VerdictAt(w, run, 1) == Forward && VerdictAt(w, run, 2) == Forward
              && VerdictAt(w, run, 3) == Late && VerdictAt(w, run, 4) == Stale
    {
      OneMore(w, run, 0);
      OneMore(w, run, 1);
      OneMore(w, run, 2);
      OneMore(w, run, 3);
    }
  }

  /** How far back the window reaches: 64 below the maximum and no farther, and at the end
      of the counter's range only with values that 64 can still be added to. */
  lemma ReachEnds(nonce: string)
    ensures var zero, one, max := Request(nonce, 0), Request(nonce, 1), Request(nonce, 0xFFFF_FFFF_FFFF_FFFF);
            forall w :: && VerdictAt(w, [zero, Request(nonce, 65), one], 2) == Late
                        && VerdictAt(w, [zero, Request(nonce, 66), one], 2) == Stale
                        && VerdictAt(w, [zero, max, Request(nonce, 0xFFFF_FFFF_FFFF_FFBF)], 2) == Late
                        && VerdictAt(w, [zero, max, Request(nonce, 0xFFFF_FFFF_FFFF_FFC0)], 2) == Stale
  {
    forall w: Window, high: uint64, low: uint64 | 0 < high
      ensures VerdictAt(w, [Request(nonce, 0), Request(nonce, high), Request(nonce, low)], 2) ==
                Judge(Window(nonce, high, {}), Request(nonce, low))
    {
      var run := [Request(nonce, 0), Request(nonce, high), Request(nonce, low)];
      OneMore(w, run, 0);
      OneMore(w, run, 1);
    }
  }

  // ------------------------------------------------------------------ runs in which counter 0 comes again

  /** The index of the last request before j with the counter 0, or -1. */
  function LastRegistration(run: seq<Request>, j: nat): (k: int)
    requires j <= |run|
    ensures -1 <= k < j && (k >= 0 ==> run[k].nc == 0)
    ensures forall m :: k < m < j ==> run[m].nc != 0
  {
    if j == 0 then -1 else if run[j - 1].nc == 0 then j - 1 else LastRegistration(run, j - 1)
  }

  /** A request with the counter 0 makes a slot forget all that was before. */
  lemma {:induction false} RegistrationForgets(w: Window, run: seq<Request>, k: nat, j: nat)
    requires k < j <= |run| && run[k].nc == 0
    ensures After(w, run[..j]) == After(Window(run[k].nonce, 0, {}), run[k + 1..j])
  {
    if j == k + 1 {
      RegistrationRestarts(w, run, k);
      assert run[k + 1..j] == [];
    } else {
      RegistrationForgets(w, run, k, j - 1);
      OneMore(w, run, j - 1);
      assert run[k + 1..j][..j - k - 2] == run[k + 1..j - 1];
    }
  }

  /** Behind a registration at index k a value is accepted if and only if it is at most 64
      below the maximum and was not accepted late since, whoever presents it, or it is
      above the maximum and presented with the nonce of the registration. */
  ghost predicate Welcome(w: Window, run: seq<Request>, k: nat, j: nat)
    requires k < j < |run|
  {
    var max, v := After(w, run[..j]).max, run[j].nc;
    || (InReach(After(w, run[..j]), v) && !CameLate(w, run, k + 1, j, v))
    || (max < v && run[j].nonce == run[k].nonce)
  }

  lemma AcceptedBehindRegistration(w: Window, run: seq<Request>, k: nat, j: nat)
    requires k < j < |run| && run[k].nc == 0 && run[j].nc != 0 && Quiet(run, k + 1, j)
    ensures VerdictAt(w, run, j).Accepted() <==> Welcome(w, run, k, j)
    ensures VerdictAt(w, run, j) == Late <==>
              InReach(After(w, run[..j]), run[j].nc) && !CameLate(w, run, k + 1, j, run[j].nc)
  {
    hide After, CameLate, InReach;
    RegistrationRestarts(w, run, k);
    WindowGrows(w, run, k + 1, j);
    LateIsHistory(w, run, k + 1, j, run[j].nc);
    ReachIsBelow(After(w, run[..j]), run[j].nc);
  }

  lemma ReachIsBelow(w: Window, nc: uint64)
    ensures InReach(w, nc) ==> nc < w.max
  {
  }

  /** The late branch does not look at the nonce.  So a nonce that the slot no longer
      holds is still accepted, exactly with the values that the window of its successor
      has in reach and not seen late. */
  lemma EvictedNonceExactly(w: Window, run: seq<Request>, k: nat, j: nat)
    requires k < j < |run| && run[k].nc == 0 && run[j].nc != 0 && Quiet(run, k + 1, j)
    requires run[j].nonce != run[k].nonce
    ensures VerdictAt(w, run, j).Accepted() <==>
              InReach(After(w, run[..j]), run[j].nc) && !CameLate(w, run, k + 1, j, run[j].nc)
    ensures VerdictAt(w, run, j).Accepted() ==> VerdictAt(w, run, j) == Late
  {
    hide After, CameLate, InReach;
    AcceptedBehindRegistration(w, run, k, j);
  }

  /** For instance, from every window: a counter accepted as a maximum of the nonce a is
      accepted again when the nonce b has taken its slot. */
  lemma EvictedNonceIsAcceptedAgain(a: string, b: string)
    requires a != b
    ensures var run := [Request(a, 0), Request(a, 1), Request(b, 0), Request(b, 2), Request(a, 1)];
            forall w :: VerdictAt(w, run, 1) == Forward && VerdictAt(w, run, 4) == Late
  {
    var run := [Request(a, 0), Request(a, 1), Request(b, 0), Request(b, 2), Request(a, 1)];
    forall w: Window
      ensures VerdictAt(w, run, 1) == Forward && VerdictAt(w, run, 4) == Late
    {
      OneMore(w, run, 0);
      OneMore(w, run, 1);
      OneMore(w, run, 2);
      OneMore(w, run, 3);
    }
  }

  /** A counter value presented again, in any run.  The value 0 is accepted always, and
      makes the slot forget: a value from before it is accepted again exactly if it is
      welcome behind the last 0, whether it was accepted before or not.  Without a 0 in
      between it is accepted again exactly as ReplayExactly says. */
  lemma ReplayInAnyRun(w: Window, run: seq<Request>, i: nat, j: nat)
    requires Sound(w) && i < j < |run|
    requires run[i].nc == run[j].nc && VerdictAt(w, run, i).Accepted()
    ensures var v, k := run[j].nc, LastRegistration(run, j);
            if v == 0 then VerdictAt(w, run, j) == Registered
            else if k < i then
              VerdictAt(w, run, j).Accepted() <==>
                VerdictAt(w, run, i) == Forward && InReach(After(w, run[..j]), v) && !CameLate(w, run, i + 1, j, v)
            else
              && (VerdictAt(w, run, j).Accepted() <==> Welcome(w, run, k, j))
              && VerdictAt(w, run, j) == Judge(After(Window(run[k].nonce, 0, {}), run[k + 1..j]), run[j])
  {
    hide After, CameLate, Judge, InReach, Welcome;
    var k := LastRegistration(run, j);
    if run[j].nc == 0 {
      RegistrationRestarts(w, run, j);
    } else if k < i {
      ReplayExactly(w, run, i, j);
    } else {
      AcceptedBehindRegistration(w, run, k, j);
      RegistrationForgets(w, run, k, j);
    }
  }

  /** So directly behind a 0 every counter of its nonce is accepted, also one that was
      accepted before. */
  lemma AcceptedAfterZero(w: Window, run: seq<Request>, k: nat)
    requires k + 1 < |run| && run[k].nc == 0 && 0 < run[k + 1].nc && run[k].nonce == run[k + 1].nonce
    ensures VerdictAt(w, run, k + 1) == Forward
  {
    RegistrationRestarts(w, run, k);
  }

  // ------------------------------------------------------------------ the table

  /** What is known of a slot: nothing before its first registration, because the
      array comes from `malloc`, and then its window. */
  datatype Slot = Unknown | Live(window: Window)

  function PresentTo(slot: Slot, q: Request): Slot {
    match slot
    case Unknown => if q.nc == 0 then Live(Window(q.nonce, 0, {})) else Unknown
    case Live(w) => Live(Present(w, q))
  }

  /** The answer ok is one that the slot may give. */
  predicate MayAnswer(slot: Slot, q: Request, ok: bool) {
    match slot
    case Unknown => q.nc == 0 ==> ok
    case Live(w) => ok == Judge(w, q).Accepted()
  }

  /** `struct MHD_NonceNc`. */
  class NonceNc {
    var nc: uint64
    var nmask: bv64
    var nonce: string
    ghost var slot: Slot

    ghost predicate Valid()
      reads this
    {
      slot.Live? ==>
        && |nonce| < MAX_NONCE_LENGTH
        && slot.window.nonce == nonce
        && slot.window.max == nc
        && Tracks(nmask, slot.window)
    }

    constructor (nc: uint64, nmask: bv64, nonce: string)
      ensures Valid() && slot == Unknown
    {
      this.nc, this.nmask, this.nonce := nc, nmask, nonce;
      slot := Unknown;
    }
  }

  // ------------------------------------------------------------------ the slot of a nonce

  /** The eight bits of a character. */
  function Octet(c: char): bv8 {
    (c as int % 256) as bv8
  }

  function Value(b: bv8): (n: nat)
    ensures n < 256
  {
    b as int
  }

  // The bytes of a word, the low one first.
  function Byte0(w: bv32): bv8 { (w & 0xff) as bv8 }
  function Byte1(w: bv32): bv8 { ((w >> 8) & 0xff) as bv8 }
  function Byte2(w: bv32): bv8 { ((w >> 16) & 0xff) as bv8 }
  function Byte3(w: bv32): bv8 { (w >> 24) as bv8 }

  /** The number that a word holds. */
  function Number(w: bv32): (n: nat)
    ensures n < UINT32_LIMIT
  {
    0x100_0000 * Value(Byte3(w)) + 0x1_0000 * Value(Byte2(w)) + 0x100 * Value(Byte1(w)) + Value(Byte0(w))
  }

  /** A `char` is signed: bytes from 128 on widen with ones. */
  function Widen(b: bv8): bv32 {
    if b < 0x80 then b as bv32 else 0xFFFF_FF00 | (b as bv32)
  }

  function HashStep(off: bv32, w: bv32): bv32 {
    (off << 8) | (w ^ (off >> 24))
  }

  function Hash(nonce: string): bv32 {
    if nonce == "" then 0 else HashStep(Hash(nonce[..|nonce| - 1]), Widen(Octet(nonce[|nonce| - 1])))
  }

  function SlotOf(nonce: string, size: nat): (i: nat)
    requires 0 < size
    ensures i < size
  {
    Number(Hash(nonce)) % size
  }

  // ------------------------------------------------------------------ runs of the whole table

  /** The request reaches the slot i. */
  predicate Reaches(q: Request, i: nat, size: nat) {
    0 < size && |q.nonce| < MAX_NONCE_LENGTH && SlotOf(q.nonce, size) == i
  }

  /** The slots after one call. */
  function Call(state: seq<Slot>, q: Request): (after: seq<Slot>)
    ensures |after| == |state|
  {
    if |state| == 0 || MAX_NONCE_LENGTH <= |q.nonce| then state
    else
      var i := SlotOf(q.nonce, |state|);
      state[i := PresentTo(state[i], q)]
  }

  function Calls(state: seq<Slot>, qs: seq<Request>): (after: seq<Slot>)
    ensures |after| == |state|
  {
    if qs == [] then state else Call(Calls(state, qs[..|qs| - 1]), qs[|qs| - 1])
  }

  /** The requests of a run that reach one slot. */
  function ForSlot(qs: seq<Request>, i: nat, size: nat): (run: seq<Request>)
    ensures forall k :: 0 <= k < |run| ==> run[k] in qs && Reaches(run[k], i, size)
  {
    if qs == [] then []
    else
      var last := qs[|qs| - 1];
      ForSlot(qs[..|qs| - 1], i, size) + if Reaches(last, i, size) then [last] else []
  }

  /** What a run of the table does to one slot is what the requests that reach it do. */
  lemma {:induction false} CallsProject(state: seq<Slot>, qs: seq<Request>, i: nat)
    requires i < |state| && state[i].Live?
    ensures Calls(state, qs)[i] == Live(After(state[i].window, ForSlot(qs, i, |state|)))
  {
    hide Present, SlotOf;
    if qs == [] {
    } else {
      var last, run := qs[|qs| - 1], ForSlot(qs[..|qs| - 1], i, |state|);
      CallsProject(state, qs[..|qs| - 1], i);
      AfterOneMore(state[i].window, run, last);
      assert run + [] == run;
    }
  }

  lemma AfterOneMore(w: Window, run: seq<Request>, q: Request)
    ensures After(w, run + [q]) == Present(After(w, run), q)
  {
    assert (run + [q])[..|run|] == run;
  }

  lemma {:induction false} MaximumStaysBelow(w: Window, run: seq<Request>, n: nat)
    requires w.max < n && Quiet(run, 0, |run|)
    requires forall k :: 0 <= k < |run| && run[k].nonce == w.nonce ==> run[k].nc < n
    ensures After(w, run).nonce == w.nonce && After(w, run).max < n
  {
    if run == [] {
    } else {
      MaximumStaysBelow(w, run[..|run| - 1], n);
    }
  }

  /** Other requests on the slot, before counter n comes: none is a registration, and
      those with the same nonce have smaller counters. */
  ghost predicate LeavesRoom(qs: seq<Request>, nonce: string, n: nat, size: nat)
    requires 0 < size
  {
    forall k :: 0 <= k < |qs| && Reaches(qs[k], SlotOf(nonce, size), size) ==>
      qs[k].nc != 0 && (qs[k].nonce == nonce ==> qs[k].nc < n)
  }

  /** Then the slot still holds the nonce, with a maximum below n. */
  lemma SlotKeepsRoom(state: seq<Slot>, qs: seq<Request>, w: Window, n: nat)
    requires 0 < |state| && state[SlotOf(w.nonce, |state|)] == Live(w) && w.max < n
    requires LeavesRoom(qs, w.nonce, n, |state|)
    ensures var slot := Calls(state, qs)[SlotOf(w.nonce, |state|)];
            slot.Live? && slot.window.nonce == w.nonce && slot.window.max < n
  {
    hide Calls, After, SlotOf, ForSlot;
    var i := SlotOf(w.nonce, |state|);
    CallsProject(state, qs, i);
    var run := ForSlot(qs, i, |state|);
    forall k | 0 <= k < |run|
      ensures run[k].nc != 0 && (run[k].nonce == w.nonce ==> run[k].nc < n)
    {
      var m :| 0 <= m < |qs| && qs[m] == run[k];
    }
    MaximumStaysBelow(w, run, n);
  }

  /** What the table answers to the j-th call of a run. */
  function VerdictOf(state: seq<Slot>, qs: seq<Request>, j: nat): Verdict
    requires j < |qs| && 0 < |state|
  {
    match Calls(state, qs[..j])[SlotOf(qs[j].nonce, |state|)]
    case Unknown => if qs[j].nc == 0 then Registered else Stale
    case Live(w) => Judge(w, qs[j])
  }

  /** The j-th call of a run is the last of those that reach its slot. */
  lemma CallInSlot(qs: seq<Request>, j: nat, size: nat)
    requires j < |qs| && 0 < size && |qs[j].nonce| < MAX_NONCE_LENGTH
    ensures var i := SlotOf(qs[j].nonce, size);
            ForSlot(qs[..j + 1], i, size) == ForSlot(qs[..j], i, size) + [qs[j]]
  {
    hide SlotOf;
    assert qs[..j + 1][..j] == qs[..j];
  }

  lemma {:induction false} ForSlotGrows(qs: seq<Request>, a: nat, b: nat, i: nat, size: nat)
    requires a <= b <= |qs|
    ensures ForSlot(qs[..a], i, size) <= ForSlot(qs[..b], i, size)
  {
    hide Reaches;
    if a == b {
    } else {
      ForSlotGrows(qs, a, b - 1, i, size);
      assert qs[..b][..b - 1] == qs[..b - 1];
    }
  }

  lemma VerdictInSlot(state: seq<Slot>, qs: seq<Request>, m: nat, j: nat)
    requires m <= j < |qs| && 0 < |state|
    requires |qs[m].nonce| < MAX_NONCE_LENGTH && |qs[j].nonce| < MAX_NONCE_LENGTH
    requires var i := SlotOf(qs[j].nonce, |state|); SlotOf(qs[m].nonce, |state|) == i && state[i].Live?
    ensures var i := SlotOf(qs[j].nonce, |state|);
            var run, p := ForSlot(qs[..j + 1], i, |state|), |ForSlot(qs[..m], i, |state|)|;
            && p < |run| && run[p] == qs[m] && (m < j ==> p < |run| - 1) && (m == j ==> p == |run| - 1)
            && VerdictOf(state, qs, m) == VerdictAt(state[i].window, run, p)
  {
    hide Calls, After, SlotOf, ForSlot, Judge, Reaches;
    var i := SlotOf(qs[j].nonce, |state|);
    CallsProject(state, qs[..m], i);
    CallInSlot(qs, m, |state|);
    CallInSlot(qs, j, |state|);
    var before, run := ForSlot(qs[..m], i, |state|), ForSlot(qs[..j + 1], i, |state|);
    ForSlotGrows(qs, m + 1, j + 1, i, |state|);
    if m < j {
      ForSlotGrows(qs, m + 1, j, i, |state|);
    }
    assert run[|before|] == (before + [qs[m]])[|before|];
    assert run[..|before|] == before;
  }

  /** A counter value presented again to the table, whatever other calls there were:
      what ReplayInAnyRun says of the requests that reached its slot. */
  lemma ReplayOnTable(state: seq<Slot>, qs: seq<Request>, m: nat, j: nat)
    requires m < j < |qs| && 0 < |state|
    requires |qs[m].nonce| < MAX_NONCE_LENGTH && |qs[j].nonce| < MAX_NONCE_LENGTH
    requires var i := SlotOf(qs[j].nonce, |state|);
             SlotOf(qs[m].nonce, |state|) == i && state[i].Live? && Sound(state[i].window)
    requires qs[m].nc == qs[j].nc && VerdictOf(state, qs, m).Accepted()
    ensures var i := SlotOf(qs[j].nonce, |state|);
            var w, run, p := state[i].window, ForSlot(qs[..j + 1], i, |state|), |ForSlot(qs[..m], i, |state|)|;
            var n, v := |run| - 1, qs[j].nc;
            && 0 <= p < n
            && var k := LastRegistration(run, n);
               if v == 0 then VerdictOf(state, qs, j) == Registered
               else if k < p then
                 VerdictOf(state, qs, j).Accepted() <==>
                   VerdictOf(state, qs, m) == Forward && InReach(After(w, run[..n]), v) && !CameLate(w, run, p + 1, n, v)
               else
                 && (VerdictOf(state, qs, j).Accepted() <==> Welcome(w, run, k, n))
                 && VerdictOf(state, qs, j) == Judge(After(Window(run[k].nonce, 0, {}), run[k + 1..n]), qs[j])
  {
    hide Calls, After, SlotOf, ForSlot, Judge, CameLate, VerdictOf, VerdictAt, LastRegistration, Welcome;
    var i := SlotOf(qs[j].nonce, |state|);
    var w, run, p := state[i].window, ForSlot(qs[..j + 1], i, |state|), |ForSlot(qs[..m], i, |state|)|;
    VerdictInSlot(state, qs, m, j);
    VerdictInSlot(state, qs, j, j);
    ReplayInAnyRun(w, run, p, |run| - 1);
  }

  /** The part of `struct MHD_Daemon` that digest authentication keeps: the array
      `nnc` of `nonce_nc_size` slots, guarded by one mutex, so that every call of
      `CheckNonceNc` is one atomic step. */
  class NonceTable {
    const nnc: seq<NonceNc>

    ghost predicate Valid()
      reads this, nnc
    {
      && (forall i :: 0 <= i < |nnc| ==> nnc[i].Valid())
      && (forall i, j :: 0 <= i < j < |nnc| ==> nnc[i] != nnc[j])
    }

    ghost function State(): (state: seq<Slot>)
      reads nnc
      ensures |state| == |nnc|
    {
      seq(|nnc|, i requires 0 <= i < |nnc| reads nnc => nnc[i].slot)
    }

    constructor (slots: seq<NonceNc>)
      ensures nnc == slots
    {
      nnc := slots;
    }

    /** The slot that the nonce hashes to answers and advances; every other slot
        is left alone. */
    method CheckNonceNc(nonce: string, nc: uint64) returns (ok: bool)
      requires Valid()
      modifies nnc
      ensures Valid()
      ensures MAX_NONCE_LENGTH <= |nonce| || |nnc| == 0 ==> !ok && State() == old(State())
      ensures |nonce| < MAX_NONCE_LENGTH && 0 < |nnc| ==>
                var i, q := SlotOf(nonce, |nnc|), Request(nonce, nc);
                && MayAnswer(old(State())[i], q, ok)
                && State() == old(State())[i := PresentTo(old(State())[i], q)]
      ensures State() == Call(old(State()), Request(nonce, nc))
    {
      hide MayAnswer, PresentTo, Number, HashStep, Widen, Octet;
      if MAX_NONCE_LENGTH <= |nonce| { return false; }
      if |nnc| == 0 { return false; }
      var off: bv32 := 0;
      var np := 0;
      while np < |nonce|
        invariant 0 <= np <= |nonce| && off == Hash(nonce[..np])
      {
        off := HashStep(off, Widen(Octet(nonce[np])));
        np := np + 1;
        assert nonce[..np][..np - 1] == nonce[..np - 1];
      }
      assert nonce[..np] == nonce;
      ok := Touch(nnc[Number(off) % |nnc|], nonce, nc);
    }

    /** The comparisons of the late branch, which exclude a wrap of the counter, say
        that it is at most 64 below the maximum. */
    static lemma ReachTested(w: Window, nc: uint64)
      ensures InReach(w, nc) <==>
                nc < w.max && (nc + 64) % UINT64_LIMIT > nc && (nc + 64) % UINT64_LIMIT >= w.max
    {
    }

    /** The critical section. */
    static method Touch(nn: NonceNc, nonce: string, nc: uint64) returns (ok: bool)
      requires nn.Valid() && |nonce| < MAX_NONCE_LENGTH
      modifies nn
      ensures nn.Valid()
      ensures MayAnswer(old(nn.slot), Request(nonce, nc), ok)
      ensures nn.slot == PresentTo(old(nn.slot), Request(nonce, nc))
    {
      hide Tracks, IsClear, WithBit, Shifted, ToIndex, InReach;
      ghost var q := Request(nonce, nc);
      ghost var live := nn.slot.Live?;
      ghost var w := if live then nn.slot.window else Window("", 0, {});
      nn.slot := PresentTo(nn.slot, q);
      ReachTested(w, nc);
      if nc == 0 {
        nn.nonce, nn.nc, nn.nmask := nonce, 0, 0;
        ClearTracksNothing(nonce);
        return true;
      }
      if nc < nn.nc && (nc + 64) % UINT64_LIMIT > nc && (nc + 64) % UINT64_LIMIT >= nn.nc {
        var j := ToIndex(nn.nc - nc - 1);
        if live { TestFindsLate(nn.nmask, w, nc, j); }
        if IsClear(nn.nmask, j) {
          if live { LateKeepsTracking(nn.nmask, w, q, j); }
          nn.nmask := WithBit(nn.nmask, j);
          return true;
        }
      }
      if nc <= nn.nc || nn.nonce != nonce {
        return false;
      }
      if 64 > nc - nn.nc {
        var s := ToIndex(nc - nn.nc);
        if live { JumpKeepsTracking(nn.nmask, w, q, s); }
        nn.nmask := Shifted(nn.nmask, s);
      } else {
        if live { LeapKeepsTracking(nn.nmask, w, q); }
        nn.nmask := 0;
      }
      nn.nc := nc;
      return true;
    }
  }
}
