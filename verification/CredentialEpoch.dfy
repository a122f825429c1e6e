/** The stamp of the last password change, which stands in for "minted before the last change" in the
    tokens of the mobile API and in the remember-me markers. */
module CredentialEpoch {
  import opened Text

  /** `replace(microsecond=0)`. */
  function WholeSecond(t: real): real { t.Floor as real }

  /** Python's `int()`, which cuts towards zero. */
  function Truncated(t: real): int { if t >= 0.0 then t.Floor else -(-t).Floor }

  /** The stamp a change at `now` puts after `previous`. */
  function NextStamp(previous: Option<real>, now: real): real {
    var stamp := WholeSecond(now);
    if previous.Some? && stamp <= previous.value then previous.value + 1.0 else stamp
  }

  /** `credential_epoch`. */
  function Epoch(stamp: Option<real>): Option<int> {
    if stamp.None? then None else Some(Truncated(stamp.value))
  }

  /** Something that carries the epoch current when it was minted, and how many password changes there
      had been by then. */
  datatype Mint = Mint(pwd: Option<int>, changes: nat)

  /** A stamp that `int()` does not round up: one of whole seconds, or from 1970 on. */
  predicate Plain(t: real) { t == WholeSecond(t) || t >= 0.0 }

  /** The stamps of a user, from the first one on, advance by whole epochs. */
  predicate Advances(stamps: seq<Option<real>>) {
    && stamps != [] && (stamps[0].Some? ==> Plain(stamps[0].value))
    && (forall i | 0 < i < |stamps| :: stamps[i].Some? && Plain(stamps[i].value))
    && forall i, j | 0 <= i < j < |stamps| && stamps[i].Some? :: Truncated(stamps[i].value) < Truncated(stamps[j].value)
  }

  lemma TruncatedPlain(t: real)
    requires Plain(t)
    ensures Truncated(t) == t.Floor
  {
    if t < 0.0 { assert t == t.Floor as real && -t == (-t.Floor) as real; }
  }

  lemma WholeIsPlain(t: real)
    ensures Plain(WholeSecond(t)) && WholeSecond(WholeSecond(t)) == WholeSecond(t)
  {}

  lemma OneMore(t: real)
    ensures (t + 1.0).Floor == t.Floor + 1 && (Plain(t) ==> Plain(t + 1.0)) && (t == WholeSecond(t) ==> t + 1.0 == WholeSecond(t + 1.0))
  {}

  lemma WholeAbove(t: real, n: real)
    requires WholeSecond(n) > t
    ensures WholeSecond(n).Floor > t.Floor
  {}

  /** Whatever the clock says, the epoch advances, and the stamp by no less than it must. */
  lemma StampAdvances(previous: Option<real>, now: real)
    requires previous.Some? ==> Plain(previous.value)
    ensures var stamp := NextStamp(previous, now);
            && Plain(stamp) && stamp >= WholeSecond(now)
            && (previous.Some? ==> stamp > previous.value && Truncated(stamp) > Truncated(previous.value))
            && (previous.Some? && previous.value == WholeSecond(previous.value) ==> stamp == WholeSecond(stamp))
            && (previous.None? ==> stamp == WholeSecond(stamp))
  {
    hide Truncated, WholeSecond, Plain;
    WholeIsPlain(now);
    if previous.Some? {
      var p := previous.value;
      OneMore(p);
      if WholeSecond(now) > p { WholeAbove(p, now); }
      TruncatedPlain(p);
      TruncatedPlain(NextStamp(previous, now));
    }
  }

  /** A stamp with a fraction from before 1970 is rounded up, and the change after it need not show. */
  lemma FractionBefore1970()
    ensures NextStamp(Some(-0.5), 0.0) == 0.0 && Epoch(Some(-0.5)) == Epoch(Some(0.0)) && !Plain(-0.5)
  {}

  lemma AdvancesMore(stamps: seq<Option<real>>, now: real)
    requires Advances(stamps)
    ensures Advances(stamps + [Some(NextStamp(stamps[|stamps| - 1], now))])
  {
    hide NextStamp, Truncated, Plain;
    var last := stamps[|stamps| - 1];
    StampAdvances(last, now);
    var more := stamps + [Some(NextStamp(last, now))];
    forall i, j | 0 <= i < j < |more| && more[i].Some? ensures Truncated(more[i].value) < Truncated(more[j].value) {
      if j == |stamps| && i < |stamps| - 1 { assert Truncated(stamps[i].value) < Truncated(stamps[|stamps| - 1].value); }
    }
  }

  /** Two epochs are the same only if no change lies between them. */
  lemma SameEpoch(stamps: seq<Option<real>>, i: nat, j: nat)
    requires Advances(stamps) && i <= j < |stamps|
    ensures Epoch(stamps[i]) == Epoch(stamps[j]) <==> i == j
  {
    hide Truncated;
    if i < j && stamps[i].Some? { assert Truncated(stamps[i].value) < Truncated(stamps[j].value); }
  }

  class User {
    var passwordHash: string
    var tokensValidAfter: Option<real>
    var mustChangePassword: bool

    /** The stamp after each change so far, the one the account came with first; and all that was minted. */
    ghost var stamps: seq<Option<real>>
    ghost var minted: seq<Mint>

    ghost predicate Valid()
      reads this
    {
      && Advances(stamps) && stamps[|stamps| - 1] == tokensValidAfter
      && forall m | m in minted :: m.changes < |stamps| && m.pwd == Epoch(stamps[m.changes])
    }

    /** The number of password changes so far. */
    ghost function Changes(): nat
      requires Valid()
      reads this
    {
      |stamps| - 1
    }

    /** An account as it is found: one from before the column existed has no stamp. */
    constructor (passwordHash: string, tokensValidAfter: Option<real>, mustChangePassword: bool)
      requires tokensValidAfter.Some? ==> Plain(tokensValidAfter.value)
      ensures Valid() && Changes() == 0 && minted == [] && this.tokensValidAfter == tokensValidAfter
    {
      this.passwordHash, this.tokensValidAfter, this.mustChangePassword := passwordHash, tokensValidAfter, mustChangePassword;
      stamps, minted := [tokensValidAfter], [];
    }

    /** `set_password`; the clock may stand still or have gone back. */
    method SetPassword(hash: string, now: real)
      requires Valid()
      modifies this
      ensures Valid() && Changes() == old(Changes()) + 1 && minted == old(minted)
      ensures passwordHash == hash && !mustChangePassword && tokensValidAfter.Some?
      ensures tokensValidAfter.value >= WholeSecond(now)
      ensures old(tokensValidAfter).Some? ==> tokensValidAfter.value > old(tokensValidAfter).value
      ensures old(tokensValidAfter).Some? ==> Epoch(tokensValidAfter).value > Epoch(old(tokensValidAfter)).value
    {
      hide Advances, Truncated, Plain;
      passwordHash := hash;
      var stamp := WholeSecond(now);
      var previous := tokensValidAfter;
      AdvancesMore(stamps, now);
      LastStamp(stamps);
      StampAdvances(previous, now);
      if previous.Some? {
        if stamp <= previous.value { stamp := previous.value + 1.0; }
      }
      tokensValidAfter := Some(stamp);
      mustChangePassword := false;
      stamps := stamps + [Some(stamp)];
    }

    /** The `pwd` claim of a new token or remember-me marker. */
    method MintPwd() returns (pwd: Option<int>)
      requires Valid()
      modifies this`minted
      ensures Valid() && Changes() == old(Changes()) && minted == old(minted) + [Mint(pwd, Changes())]
    {
      hide Truncated;
      pwd := Epoch(tokensValidAfter);
      minted := minted + [Mint(pwd, |stamps| - 1)];
    }

    /** `token_predates_password_change`. */
    method Predates(pwd: Option<int>) returns (stale: bool)
      requires Valid()
      ensures stale <==> tokensValidAfter.Some? && pwd != Epoch(tokensValidAfter)
      ensures forall m | m in minted && m.pwd == pwd :: stale <==> m.changes < Changes()
    {
      forall m | m in minted ensures m.pwd != Epoch(tokensValidAfter) <==> m.changes < |stamps| - 1 {
        SameEpoch(stamps, m.changes, |stamps| - 1);
      }
      NoStampNoChange(stamps);
      var epoch := Epoch(tokensValidAfter);
      if epoch.None? { return false; }
      return pwd != epoch;
    }

    /** The credential part of `remember_restore_refusal`. */
    method MarkerRefused(pwd: Option<int>) returns (refused: bool)
      requires Valid()
      ensures refused <==> pwd != Epoch(tokensValidAfter)
      ensures forall m | m in minted && m.pwd == pwd :: refused <==> m.changes < Changes()
    {
      forall m | m in minted ensures m.pwd != Epoch(tokensValidAfter) <==> m.changes < |stamps| - 1 {
        SameEpoch(stamps, m.changes, |stamps| - 1);
      }
      return pwd != Epoch(tokensValidAfter);
    }
  }

  lemma LastStamp(stamps: seq<Option<real>>)
    requires Advances(stamps)
    ensures stamps[|stamps| - 1].Some? ==> Plain(stamps[|stamps| - 1].value)
  {}

  lemma NoStampNoChange(stamps: seq<Option<real>>)
    requires Advances(stamps)
    ensures stamps[|stamps| - 1].None? ==> |stamps| == 1
  {}
}
