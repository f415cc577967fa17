/** Control of the real desktop: a session must be armed, arming runs out, and stopping it moves the
    control epoch on so that nothing begun earlier is authorized any more. */
module DesktopSession {

  const ARM_SECONDS: real := 30.0

  datatype Refusal = Granted | SessionExpired | ControlRevoked | NotArmed

  class Session {
    var armed: bool
    var armExpires: real
    var controlEpoch: nat
    var closed: bool
    var now: real                  // the manager's monotonic clock
    const expires: real

    ghost predicate Valid()
      reads this
    {
      closed ==> !armed
    }

    /** An action begun under `epoch` may still emit input. */
    ghost predicate Allowed(epoch: nat)
      reads this
    {
      !closed && now < expires && controlEpoch == epoch && armed && now < armExpires
    }

    constructor (now: real, expires: real)
      ensures Valid() && !armed && !closed && controlEpoch == 0 && this.now == now && this.expires == expires
    {
      armed, armExpires, controlEpoch, closed := false, 0.0, 0, false;
      this.now, this.expires := now, expires;
    }

    /** `_stop`. */
    method Stop(close: bool)
      requires Valid()
      modifies `armed, `armExpires, `controlEpoch, `closed
      ensures Valid() && !armed && armExpires == 0.0 && controlEpoch == old(controlEpoch) + 1
      ensures closed == (old(closed) || close)
      ensures forall epoch: nat | epoch <= old(controlEpoch) :: !Allowed(epoch)
    {
      armed := false;
      armExpires := 0.0;
      controlEpoch := controlEpoch + 1;
      closed := closed || close;
    }

    /** `_authorize`: refusing an action for want of arming also stops the session. */
    method Authorize(epoch: nat, arm: bool) returns (r: Refusal)
      requires Valid()
      modifies `armed, `armExpires, `controlEpoch, `closed
      ensures Valid() && closed == old(closed)
      // The whole answer, from the session as it was.
      ensures r == SessionExpired <==> closed || expires <= now
      ensures r == ControlRevoked <==> !closed && now < expires && old(controlEpoch) != epoch
      ensures r == NotArmed <==>
                && !closed && now < expires && old(controlEpoch) == epoch
                && !arm && (!old(armed) || old(armExpires) <= now)
      ensures !arm ==> (r == Granted <==> old(Allowed(epoch)))
      ensures r != NotArmed ==>
                armed == old(armed) && armExpires == old(armExpires) && controlEpoch == old(controlEpoch)
      // Want of arming stops the session: what was begun under this epoch stays disallowed for good.
      ensures r == NotArmed ==> !armed && armExpires == 0.0 && controlEpoch == old(controlEpoch) + 1
      ensures r == NotArmed ==> epoch < controlEpoch && !Allowed(epoch)
    {
      if closed || expires <= now {
        return SessionExpired;
      }
      if controlEpoch != epoch {
        return ControlRevoked;
      }
      if !arm && (!armed || armExpires <= now) {
        Stop(false);
        return NotArmed;
      }
      return Granted;
    }

    /** The arm action: never succeeds on a closed session, and grants a limited time. */
    method Arm(epoch: nat) returns (r: Refusal)
      requires Valid()
      modifies `armed, `armExpires, `controlEpoch, `closed
      ensures Valid() && closed == old(closed) && controlEpoch == old(controlEpoch)
      ensures r == SessionExpired <==> closed || expires <= now
      ensures r == ControlRevoked <==> !closed && now < expires && controlEpoch != epoch
      ensures r == Granted <==> !closed && now < expires && controlEpoch == epoch
      ensures r == Granted ==> Allowed(epoch) && armExpires == now + ARM_SECONDS
      ensures r != Granted ==> armed == old(armed) && armExpires == old(armExpires)
    {
      r := Authorize(epoch, true);
      if r == Granted {
        armed := true;
        armExpires := now + ARM_SECONDS;
      }
    }

    /** The renewal after a successful action: only under the epoch it began in. */
    method Renew(epoch: nat)
      requires Valid()
      modifies `armExpires
      ensures Valid()
      ensures armExpires == if armed && controlEpoch == epoch then now + ARM_SECONDS else old(armExpires)
    {
      if armed && controlEpoch == epoch {
        armExpires := now + ARM_SECONDS;
      }
    }

    /** The part of `_session` that stops a session whose arming ran out. */
    method LookUp()
      requires Valid()
      modifies `armed, `armExpires, `controlEpoch, `closed
      ensures Valid() && closed == old(closed)
      ensures armed <==> old(armed) && now < old(armExpires)
      ensures controlEpoch == old(controlEpoch) + if old(armed) && !armed then 1 else 0
      ensures armed == old(armed) ==> armExpires == old(armExpires)
    {
      if armed && armExpires <= now {
        Stop(false);
      }
    }

    method Tick(elapsed: real)
      requires Valid()
      modifies `now
      ensures Valid() && now == if elapsed > 0.0 then old(now) + elapsed else old(now)
    {
      if elapsed > 0.0 {
        now := now + elapsed;
      }
    }

    /** Anything other threads can do while an action holds the session: time passes, the session is
        looked up, stopped, revoked. Arming needs the same lock, so it is not among them. What was
        not allowed never becomes allowed, and a closed session stays closed and unarmed. */
    method Interfere()
      requires Valid()
      modifies this
      ensures Valid() && now >= old(now) && controlEpoch >= old(controlEpoch) && (old(closed) ==> closed)
      ensures forall epoch: nat | Allowed(epoch) :: old(Allowed(epoch))
    {
      var n :| 0 <= n;
      for i := 0 to n
        invariant Valid() && now >= old(now) && controlEpoch >= old(controlEpoch) && (old(closed) ==> closed)
        invariant forall epoch: nat | Allowed(epoch) :: old(Allowed(epoch))
      {
        if * {
          var elapsed: real := *;
          Tick(elapsed);
        } else if * {
          LookUp();
        } else {
          var close: bool := *;
          Stop(close);
        }
      }
    }
  }

  /** Everything that can happen to a session over its life, arming included. */
  method LiveOn(session: Session, steps: nat)
    requires session.Valid()
    modifies session
    ensures session.Valid() && session.controlEpoch >= old(session.controlEpoch)
    ensures old(session.closed) ==> session.closed && !session.armed
    // An epoch that was left behind never comes back.
    ensures forall epoch: nat | epoch < old(session.controlEpoch) :: !session.Allowed(epoch)
  {
    for i := 0 to steps
      invariant session.Valid() && session.controlEpoch >= old(session.controlEpoch)
      invariant old(session.closed) ==> session.closed
    {
      var epoch: nat, arm: bool := *, *;
      if * {
        session.Interfere();
      } else if * {
        var _ := session.Arm(epoch);
      } else if * {
        var _ := session.Authorize(epoch, arm);
      } else {
        session.Renew(epoch);
      }
    }
  }

  /** An action refused for want of arming stays refused whatever happens afterwards, a new arming
      included. */
  method RefusedForGood(session: Session, epoch: nat, steps: nat) returns (r: Refusal, later: Refusal)
    requires session.Valid()
    modifies session
    ensures session.Valid()
    ensures r == NotArmed ==> later != Granted
  {
    r := session.Authorize(epoch, false);
    LiveOn(session, steps);
    later := session.Authorize(epoch, false);
  }
}
