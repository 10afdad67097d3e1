/** One booking attempt: lock a term, pass the captcha, post the form
    data and confirm. The program-wide mutex is the gate `held`; the
    requests sent to the booking service are recorded in `sent`. The
    service's answers (the lock response that the first of the parallel
    lock requests brings back, the recognised captcha text and the
    captcha check's body) are parameters. */
module Booking {
  import opened Config

  /** A request sent to the booking service. */
  datatype Request =
    | LockTerm(time: string, queue: string)
    | FetchCaptcha
    | CheckCaptcha(code: string)
    | PostUserData(slot: string, id: string, rows: seq<Row>)
    | ConfirmTerm(slot: string, id: string)

  /** How `lock` reads the lock response. */
  datatype LockResult = Locked(slot: string) | NotLocked | SlicePanic

  predicate HasPrefix(s: string, p: string) {
    |p| <= |s| && s[..|p|] == p
  }

  /** A response starting with "OK" locks the term; the slot is what
      follows its first three characters. The bare response "OK" is too
      short for that slice, which panics in Go. */
  function ParseLockResult(response: string): (r: LockResult)
    ensures r.Locked? <==> HasPrefix(response, "OK") && |response| >= 3
    ensures r.SlicePanic? <==> response == "OK"
    ensures r.Locked? ==> response == response[..3] + r.slot && |r.slot| == |response| - 3
  {
    if HasPrefix(response, "OK") then
      if |response| >= 3 then Locked(response[3..]) else SlicePanic
    else NotLocked
  }

  /** `checkCaptcha`: the service accepts the code only by answering
      exactly "true". */
  predicate CaptchaAccepted(body: string) {
    body == "true"
  }

  /** The time string of `makeReservation`: date, a space, the term and
      ":00" seconds. */
  function ReservationTime(date: string, term: string): (t: string)
    ensures |t| == |date| + |term| + 4
  {
    date + " " + term + ":00"
  }

  /** The date and the term can be read back from the time string. */
  lemma ReservationTimeParts(date: string, term: string)
    ensures var t := ReservationTime(date, term);
      && t[..|date|] == date
      && t[|date|] == ' '
      && t[|date| + 1..|t| - 3] == term
      && t[|t| - 3..] == ":00"
  {
    var t := ReservationTime(date, term);
    assert t == date + [' '] + term + ":00";
  }

  /** Different (date, term) pairs of the same date length give different
      time strings. */
  lemma ReservationTimeInjective(d1: string, t1: string, d2: string, t2: string)
    requires |d1| == |d2| && ReservationTime(d1, t1) == ReservationTime(d2, t2)
    ensures d1 == d2 && t1 == t2
  {
    ReservationTimeParts(d1, t1);
    ReservationTimeParts(d2, t2);
  }

  /** The requests of the captcha step and what follows it: fetch and
      check the captcha, then, if it is accepted, post the form data and
      confirm the slot. */
  function ReserveRequests(entity: Entity, slot: string, userData: seq<Row>,
                           code: string, checkBody: string): (rs: seq<Request>)
    ensures |rs| == (if CaptchaAccepted(checkBody) then 4 else 2)
    ensures rs[..2] == [FetchCaptcha, CheckCaptcha(code)]
    ensures CaptchaAccepted(checkBody) ==>
      rs[2..] == [PostUserData(slot, entity.id, userData), ConfirmTerm(slot, entity.id)]
  {
    [FetchCaptcha, CheckCaptcha(code)]
      + (if CaptchaAccepted(checkBody)
         then [PostUserData(slot, entity.id, userData), ConfirmTerm(slot, entity.id)]
         else [])
  }

  /** The requests of a whole attempt and whether the gate is left held:
      a lock request, and the captcha step only when the term was locked. */
  function Attempt(entity: Entity, date: string, term: string, userData: seq<Row>,
                   lockResponse: string, code: string, checkBody: string): (r: (seq<Request>, bool))
    requires !ParseLockResult(lockResponse).SlicePanic?
    ensures |r.0| >= 1 && r.0[0] == LockTerm(ReservationTime(date, term), entity.queue)
  {
    var lockReq := [LockTerm(ReservationTime(date, term), entity.queue)];
    match ParseLockResult(lockResponse)
    case Locked(slot) =>
      (lockReq + ReserveRequests(entity, slot, userData, code, checkBody), CaptchaAccepted(checkBody))
    case NotLocked => (lockReq, false)
  }

  /** The gate stays held after an attempt exactly when the term was
      locked and the captcha accepted. */
  lemma AttemptHoldsOnSuccess(entity: Entity, date: string, term: string, userData: seq<Row>,
                              lockResponse: string, code: string, checkBody: string)
    requires !ParseLockResult(lockResponse).SlicePanic?
    ensures Attempt(entity, date, term, userData, lockResponse, code, checkBody).1
      <==> HasPrefix(lockResponse, "OK") && CaptchaAccepted(checkBody)
  {
  }

  /** Form data is posted only for a locked slot and an accepted captcha,
      right after the check and right before the confirmation of the same
      slot. */
  lemma PostedOnlyAfterCheck(entity: Entity, date: string, term: string, userData: seq<Row>,
                             lockResponse: string, code: string, checkBody: string, i: nat)
    requires !ParseLockResult(lockResponse).SlicePanic?
    requires var rs := Attempt(entity, date, term, userData, lockResponse, code, checkBody).0;
      i < |rs| && rs[i].PostUserData?
    ensures var rs := Attempt(entity, date, term, userData, lockResponse, code, checkBody).0;
      && HasPrefix(lockResponse, "OK") && CaptchaAccepted(checkBody)
      && i == 3 && rs[2] == CheckCaptcha(code)
      && rs[i] == PostUserData(lockResponse[3..], entity.id, userData)
      && rs[i + 1] == ConfirmTerm(lockResponse[3..], entity.id)
  {
    var rs := Attempt(entity, date, term, userData, lockResponse, code, checkBody).0;
    var lockReq := [LockTerm(ReservationTime(date, term), entity.queue)];
    if ParseLockResult(lockResponse).Locked? {
      var slot := lockResponse[3..];
      var tail := ReserveRequests(entity, slot, userData, code, checkBody);
      assert rs == lockReq + tail;
      assert rs[i] == tail[i - 1];
    }
  }

  /** A locked slot and an accepted captcha send exactly five requests:
      the lock, the captcha fetch and check, the form data and the
      confirmation of that slot. */
  lemma AcceptedAttemptPostsAndConfirms(entity: Entity, date: string, term: string, userData: seq<Row>,
                                        lockResponse: string, code: string, checkBody: string)
    requires ParseLockResult(lockResponse).Locked? && CaptchaAccepted(checkBody)
    ensures var slot := ParseLockResult(lockResponse).slot;
      Attempt(entity, date, term, userData, lockResponse, code, checkBody)
      == ([LockTerm(ReservationTime(date, term), entity.queue), FetchCaptcha, CheckCaptcha(code),
           PostUserData(slot, entity.id, userData), ConfirmTerm(slot, entity.id)], true)
  {
    var slot := ParseLockResult(lockResponse).slot;
    var tail := ReserveRequests(entity, slot, userData, code, checkBody);
    var lockReq := [LockTerm(ReservationTime(date, term), entity.queue)];
    assert tail == [FetchCaptcha, CheckCaptcha(code), PostUserData(slot, entity.id, userData), ConfirmTerm(slot, entity.id)];
    assert Attempt(entity, date, term, userData, lockResponse, code, checkBody) == (lockReq + tail, true);
    assert lockReq + tail == [LockTerm(ReservationTime(date, term), entity.queue), FetchCaptcha, CheckCaptcha(code),
      PostUserData(slot, entity.id, userData), ConfirmTerm(slot, entity.id)];
  }

  /** A lock response without the "OK" prefix sends the lock request only. */
  lemma FailedLockSendsOnlyLock(entity: Entity, date: string, term: string, userData: seq<Row>,
                                lockResponse: string, code: string, checkBody: string)
    requires !HasPrefix(lockResponse, "OK")
    ensures Attempt(entity, date, term, userData, lockResponse, code, checkBody)
      == ([LockTerm(ReservationTime(date, term), entity.queue)], false)
  {
  }

  /** The program-wide booking state: the mutex that lets one attempt at a
      time through, and the requests sent so far. */
  class Booker {
    var held: bool
    var sent: seq<Request>

    constructor ()
      ensures !held && sent == []
    {
      held := false;
      sent := [];
    }

    /** `lock`: takes the gate, sends the lock request and reads the
        answer, releasing the gate unless the term was locked. */
    method Lock(entity: Entity, time: string, lockResponse: string) returns (slot: string, locked: bool)
      requires !held && !ParseLockResult(lockResponse).SlicePanic?
      modifies this
      ensures locked <==> HasPrefix(lockResponse, "OK")
      ensures locked ==> slot == lockResponse[3..]
      ensures !locked ==> slot == ""
      ensures held == locked
      ensures sent == old(sent) + [LockTerm(time, entity.queue)]
    {
      held := true;
      sent := sent + [LockTerm(time, entity.queue)];
      var result := ParseLockResult(lockResponse);
      if result.Locked? {
        slot := result.slot;
        locked := true;
        return;
      }
      held := false;
      slot := "";
      locked := false;
    }

    /** `reserve`: fetches and checks the captcha; on acceptance posts the
        form data and confirms the slot, keeping the gate; otherwise
        releases the gate. */
    method Reserve(entity: Entity, time: string, slot: string, userData: seq<Row>,
                   code: string, checkBody: string)
      requires held
      modifies this
      ensures held == CaptchaAccepted(checkBody)
      ensures sent == old(sent) + ReserveRequests(entity, slot, userData, code, checkBody)
    {
      sent := sent + [FetchCaptcha, CheckCaptcha(code)];
      if checkBody == "true" {
        sent := sent + [PostUserData(slot, entity.id, userData)];
        sent := sent + [ConfirmTerm(slot, entity.id)];
      } else {
        held := false;
      }
    }

    /** `makeReservation`: builds the time string, locks, and reserves
        only when the lock succeeded. */
    method MakeReservation(entity: Entity, date: string, term: string, userData: seq<Row>,
                           lockResponse: string, code: string, checkBody: string)
      requires !held && !ParseLockResult(lockResponse).SlicePanic?
      modifies this
      ensures var (rs, h) := Attempt(entity, date, term, userData, lockResponse, code, checkBody);
        sent == old(sent) + rs && held == h
    {
      var time := ReservationTime(date, term);
      var slot, ok := Lock(entity, time, lockResponse);
      if ok {
        Reserve(entity, time, slot, userData, code, checkBody);
      }
    }
  }
}
