/** The retry loop around a mount request. */
module MountRetry {
  import opened Base

  const ERR_SUCCESS := 0
  const ERR_PASSWORD_WRONG := 3
  const TC_TRY_HEADER_BAK_AFTER_NBR_WRONG_PWD_TRIES := 2
  const FAVORITE_RETRIES := 10

  /** How the driver answers one request. */
  datatype Reply = SharingViolation | OtherFailure | Answered(code: int)

  /**
   * One turn of the loop as the world outside it has it: a parse error of the volume path, the reply, the
   * user's answer.
   */
  datatype Turn = Turn(pathBroken: bool, reply: Reply, favoriteInProgress: bool, userSaysYes: bool)

  /** What the caller passes and the loop does not change. */
  datatype Options = Options(quiet: bool, reportWrongPassword: bool, sharedAccess: bool, useBackupHeader: bool)

  /** The variables of the loop; wrongPasswords is the counter kept across calls. */
  datatype Loop = Loop(favoriteRetries: nat, exclusive: bool, useBackup: bool, wrongPasswords: nat)

  /** A request sent to the driver. */
  datatype Request = Request(exclusive: bool, useBackup: bool)

  datatype Next = Again(state: Loop) | Done(result: int, state: Loop)

  /** What one reply leads to. */
  function React(o: Options, s: Loop, t: Turn): Next {
    match t.reply
    case OtherFailure => Done(-1, s)
    case SharingViolation =>
      var tried := if t.favoriteInProgress then s.(favoriteRetries := s.favoriteRetries + 1) else s;
      if t.favoriteInProgress && tried.favoriteRetries < FAVORITE_RETRIES then Again(tried)
      else if !s.exclusive then Done(-1, tried)
      else if o.quiet || t.userSaysYes then Again(tried.(exclusive := false))
      else Done(-1, tried)
    case Answered(code) =>
      if code == ERR_PASSWORD_WRONG && o.reportWrongPassword then
        var counted := s.(wrongPasswords := s.wrongPasswords + 1);
        if counted.wrongPasswords > TC_TRY_HEADER_BAK_AFTER_NBR_WRONG_PWD_TRIES && !s.useBackup
        then Again(counted.(useBackup := true)) else Done(0, counted)
      else if code != ERR_SUCCESS then Done(0, s)
      else Done(if s.exclusive then 1 else 2, s.(wrongPasswords := 0))
  }

  function Start(o: Options, wrongPasswords: nat): Loop {
    Loop(0, !o.sharedAccess, o.useBackupHeader, wrongPasswords)
  }

  /** How many more requests the loop can still ask for after the next one. */
  function Left(s: Loop): nat {
    (if s.favoriteRetries < FAVORITE_RETRIES - 1 then FAVORITE_RETRIES - 1 - s.favoriteRetries else 0)
    + (if s.exclusive then 1 else 0) + (if s.useBackup then 0 else 1)
  }

  lemma AgainLeavesLess(o: Options, s: Loop, t: Turn)
    requires React(o, s, t).Again?
    ensures Left(React(o, s, t).state) < Left(s)
  {
  }

  // -------------------------------------------------------------------------
  // Whole runs
  // -------------------------------------------------------------------------

  datatype Outcome = Outcome(result: int, requests: seq<Request>, wrongPasswords: nat)

  /** The rest of a run from turn k on. */
  function RunFrom(o: Options, s: Loop, turns: nat -> Turn, k: nat): Outcome
    decreases Left(s)
  {
    if turns(k).pathBroken then Outcome(-1, [], s.wrongPasswords)
    else
      var request := Request(s.exclusive, s.useBackup);
      match React(o, s, turns(k))
      case Done(result, last) => Outcome(result, [request], last.wrongPasswords)
      case Again(next) =>
        AgainLeavesLess(o, s, turns(k));
        var rest := RunFrom(o, next, turns, k + 1);
        Outcome(rest.result, [request] + rest.requests, rest.wrongPasswords)
  }

  lemma RunUnfolds(o: Options, s: Loop, turns: nat -> Turn, k: nat)
    ensures turns(k).pathBroken ==> RunFrom(o, s, turns, k) == Outcome(-1, [], s.wrongPasswords)
    ensures !turns(k).pathBroken ==>
              var request := Request(s.exclusive, s.useBackup);
              RunFrom(o, s, turns, k) == match React(o, s, turns(k))
                                         case Done(result, last) => Outcome(result, [request], last.wrongPasswords)
                                         case Again(next) =>
                                           var rest := RunFrom(o, next, turns, k + 1);
                                           Outcome(rest.result, [request] + rest.requests, rest.wrongPasswords)
  {
  }

  /** A request that may follow another: exclusive access is only dropped, the backup header only switched on. */
  predicate Follows(r: Request, r': Request) {
    (r'.exclusive ==> r.exclusive) && (r.useBackup ==> r'.useBackup)
  }

  /** Why a request differs from the one before it in turn k. */
  predicate Justified(o: Options, t: Turn, r: Request, r': Request) {
    && (r.exclusive && !r'.exclusive ==> t.reply == SharingViolation && (o.quiet || t.userSaysYes))
    && (!r.useBackup && r'.useBackup ==> t.reply == Answered(ERR_PASSWORD_WRONG) && o.reportWrongPassword)
  }

  lemma {:induction false} RunFromFacts(o: Options, s: Loop, turns: nat -> Turn, k: nat)
    ensures var run := RunFrom(o, s, turns, k);
            && |run.requests| <= 1 + Left(s)
            && (run.requests != [] ==> run.requests[0] == Request(s.exclusive, s.useBackup))
            && (forall i | 0 <= i < |run.requests| - 1 ::
                  && Follows(run.requests[i], run.requests[i + 1])
                  && Justified(o, turns(k + i), run.requests[i], run.requests[i + 1]))
            && (run.result == 1 || run.result == 2
                <==> run.requests != [] && turns(k + |run.requests| - 1).reply == Answered(0))
            && (run.result == 1 || run.result == 2 ==>
                  run.requests[|run.requests| - 1].exclusive == (run.result == 1) && run.wrongPasswords == 0)
            && -1 <= run.result <= 2
    decreases Left(s)
  {
    if !turns(k).pathBroken && React(o, s, turns(k)).Again? {
      var next := React(o, s, turns(k)).state;
      AgainLeavesLess(o, s, turns(k));
      RunFromFacts(o, next, turns, k + 1);
      var run, rest := RunFrom(o, s, turns, k), RunFrom(o, next, turns, k + 1);
      forall i | 0 <= i < |run.requests| - 1
        ensures Follows(run.requests[i], run.requests[i + 1])
        ensures Justified(o, turns(k + i), run.requests[i], run.requests[i + 1])
      {
        if i > 0 {
          assert run.requests[i] == rest.requests[i - 1] && run.requests[i + 1] == rest.requests[i - 1 + 1];
          assert turns(k + i) == turns(k + 1 + (i - 1));
        }
      }
    }
  }

  /** Whatever the driver and the user answer, at most twelve requests are made. */
  lemma AtMostTwelveRequests(o: Options, wrongPasswords: nat, turns: nat -> Turn)
    ensures |RunFrom(o, Start(o, wrongPasswords), turns, 0).requests| <= 12
  {
    RunFromFacts(o, Start(o, wrongPasswords), turns, 0);
  }

  /** Twelve are reached: nine favourite retries, then shared access, then the backup header. */
  lemma TwelveRequestsReached() returns (o: Options, wrongPasswords: nat, turns: nat -> Turn)
    ensures |RunFrom(o, Start(o, wrongPasswords), turns, 0).requests| == 12
  {
    o, wrongPasswords := Options(true, true, false, false), TC_TRY_HEADER_BAK_AFTER_NBR_WRONG_PWD_TRIES;
    turns := k => Turn(false, if k < 10 then SharingViolation else Answered(ERR_PASSWORD_WRONG), true, false);
    FavoriteRetriesCount(o, turns, 0);
  }

  lemma {:induction false} FavoriteRetriesCount(o: Options, turns: nat -> Turn, k: nat)
    requires o == Options(true, true, false, false) && k <= 9
    requires forall i: nat | i < 10 :: turns(i) == Turn(false, SharingViolation, true, false)
    requires turns(10) == turns(11) == Turn(false, Answered(ERR_PASSWORD_WRONG), true, false)
    ensures |RunFrom(o, Loop(k, true, false, 2), turns, k).requests| == 12 - k
    decreases 9 - k
  {
    if k < 9 {
      assert React(o, Loop(k, true, false, 2), turns(k)) == Again(Loop(k + 1, true, false, 2));
      FavoriteRetriesCount(o, turns, k + 1);
    } else {
      assert React(o, Loop(9, true, false, 2), turns(9)) == Again(Loop(10, false, false, 2));
      assert React(o, Loop(10, false, false, 2), turns(10)) == Again(Loop(10, false, true, 3));
      assert React(o, Loop(10, false, true, 3), turns(11)) == Done(0, Loop(10, false, true, 4));
      assert |RunFrom(o, Loop(10, false, true, 3), turns, 11).requests| == 1;
      assert |RunFrom(o, Loop(10, false, false, 2), turns, 10).requests| == 2;
    }
  }

  /** With these requests sent and these fields before turn k, the run from the start ends as the rest of it does. */
  ghost predicate OnTheWay(o: Options, start: Loop, sent: seq<Request>, turns: nat -> Turn, k: nat,
                           requests: seq<Request>, s: Loop) {
    var rest, run := RunFrom(o, s, turns, k), RunFrom(o, start, turns, 0);
    && rest.result == run.result && rest.wrongPasswords == run.wrongPasswords
    && requests + rest.requests == sent + run.requests
  }

  lemma OnTheWayAtFirst(o: Options, wrongPasswords: nat, sent: seq<Request>, turns: nat -> Turn)
    ensures Start(o, wrongPasswords) == Loop(0, !o.sharedAccess, o.useBackupHeader, wrongPasswords)
    ensures OnTheWay(o, Start(o, wrongPasswords), sent, turns, 0, sent, Start(o, wrongPasswords))
  {
  }

  /** What one turn leads to: the end of the run, or the next turn with one more request sent. */
  lemma TurnTaken(o: Options, start: Loop, sent: seq<Request>, turns: nat -> Turn, k: nat, requests: seq<Request>,
                  s: Loop)
    requires OnTheWay(o, start, sent, turns, k, requests, s)
    ensures var run, more := RunFrom(o, start, turns, 0), requests + [Request(s.exclusive, s.useBackup)];
            if turns(k).pathBroken
            then run.result == -1 && sent + run.requests == requests && run.wrongPasswords == s.wrongPasswords
            else match React(o, s, turns(k))
                 case Done(result, last) =>
                   run.result == result && sent + run.requests == more && run.wrongPasswords == last.wrongPasswords
                 case Again(next) => OnTheWay(o, start, sent, turns, k + 1, more, next)
  {
    hide React, RunFrom;
    RunUnfolds(o, s, turns, k);
    var request := [Request(s.exclusive, s.useBackup)];
    if !turns(k).pathBroken && React(o, s, turns(k)).Again? {
      var rest := RunFrom(o, React(o, s, turns(k)).state, turns, k + 1);
      assert requests + (request + rest.requests) == (requests + request) + rest.requests;
    }
  }

  // -------------------------------------------------------------------------
  // What each answer leads to
  // -------------------------------------------------------------------------

  /** The first request is exclusive unless shared access was asked for, and for the backup header if that was. */
  lemma FirstRequest(o: Options, wrongPasswords: nat, turns: nat -> Turn)
    requires !turns(0).pathBroken
    ensures var run := RunFrom(o, Start(o, wrongPasswords), turns, 0);
            run.requests != [] && run.requests[0] == Request(!o.sharedAccess, o.useBackupHeader)
  {
    RunFromFacts(o, Start(o, wrongPasswords), turns, 0);
    RunUnfolds(o, Start(o, wrongPasswords), turns, 0);
  }

  /** A successful request ends the call with 1 or 2, exclusive or shared, and resets the count of wrong passwords. */
  lemma SuccessEnds(o: Options, s: Loop, t: Turn)
    requires t.reply == Answered(0)
    ensures React(o, s, t) == Done(if s.exclusive then 1 else 2, s.(wrongPasswords := 0))
  {
  }

  /** Any other failure ends the call with -1, and any other code of the driver with 0, without another request. */
  lemma OtherAnswersEnd(o: Options, s: Loop, t: Turn)
    ensures t.reply == OtherFailure ==> React(o, s, t) == Done(-1, s)
    ensures t.reply.Answered? && t.reply.code != 0 && (t.reply.code != 3 || !o.reportWrongPassword) ==>
              React(o, s, t) == Done(0, s)
  {
  }

  /** A reported wrong password is counted, and from the third on tried again with the backup header, once. */
  lemma WrongPasswordCounts(o: Options, s: Loop, t: Turn)
    requires t.reply == Answered(3) && o.reportWrongPassword
    ensures React(o, s, t).state.wrongPasswords == s.wrongPasswords + 1
    ensures React(o, s, t).Again? <==> s.wrongPasswords >= 2 && !s.useBackup
    ensures React(o, s, t).Again? ==> React(o, s, t).state.useBackup
    ensures React(o, s, t).Done? ==> React(o, s, t).result == 0 && React(o, s, t).state.useBackup == s.useBackup
    ensures React(o, s, t).state.exclusive == s.exclusive && React(o, s, t).state.favoriteRetries == s.favoriteRetries
  {
  }

  /**
   * A sharing violation is tried again unchanged up to nine times while a favourite is mounted on arrival;
   * then once in shared mode, with consent or in quiet mode; and else ends the call with -1.
   */
  lemma SharingViolationRetries(o: Options, s: Loop, t: Turn)
    requires t.reply == SharingViolation
    ensures t.favoriteInProgress && s.favoriteRetries < 9 ==>
              React(o, s, t) == Again(s.(favoriteRetries := s.favoriteRetries + 1))
    ensures !(t.favoriteInProgress && s.favoriteRetries < 9) && s.exclusive && (o.quiet || t.userSaysYes) ==>
              React(o, s, t).Again? && !React(o, s, t).state.exclusive
    ensures !(t.favoriteInProgress && s.favoriteRetries < 9) && !(s.exclusive && (o.quiet || t.userSaysYes)) ==>
              React(o, s, t).Done? && React(o, s, t).result == -1 && React(o, s, t).state.exclusive == s.exclusive
    ensures React(o, s, t).state.useBackup == s.useBackup && React(o, s, t).state.wrongPasswords == s.wrongPasswords
  {
  }

  // -------------------------------------------------------------------------
  // The routine
  // -------------------------------------------------------------------------

  /** The parts of a mount that outlive one call, with the requests sent so far. */
  class Mounter {
    var wrongPwdRetryCounter: nat
    var requests: seq<Request>

    constructor ()
      ensures wrongPwdRetryCounter == 0 && requests == []
    {
      wrongPwdRetryCounter, requests := 0, [];
    }

    /** What follows a request: again says whether control goes back to the retry label. */
    method AfterRequest(o: Options, turn: Turn, retries: nat, exclusive: bool, backup: bool)
      returns (again: bool, result: int, favoriteMountOnArrivalRetryCount: nat, exclusiveAccess: bool,
               useBackupHeader: bool)
      modifies this`wrongPwdRetryCounter
      ensures var s' := Loop(favoriteMountOnArrivalRetryCount, exclusiveAccess, useBackupHeader, wrongPwdRetryCounter);
              React(o, Loop(retries, exclusive, backup, old(wrongPwdRetryCounter)), turn)
              == if again then Again(s') else Done(result, s')
    {
      again, result := false, -1;
      favoriteMountOnArrivalRetryCount, exclusiveAccess, useBackupHeader := retries, exclusive, backup;
      if turn.reply == OtherFailure {
        return;
      }
      if turn.reply == SharingViolation {
        if turn.favoriteInProgress {
          favoriteMountOnArrivalRetryCount := favoriteMountOnArrivalRetryCount + 1;
          if favoriteMountOnArrivalRetryCount < FAVORITE_RETRIES {
            again := true;
            return;
          }
        }
        if exclusiveAccess {
          if o.quiet {
            exclusiveAccess, again := false, true;
            return;
          }
          if turn.userSaysYes {
            exclusiveAccess, again := false, true;
          }
        }
        return;
      }
      if turn.reply.code != ERR_SUCCESS {
        result := 0;
        if turn.reply.code == ERR_PASSWORD_WRONG && o.reportWrongPassword {
          wrongPwdRetryCounter := wrongPwdRetryCounter + 1;
          if wrongPwdRetryCounter > TC_TRY_HEADER_BAK_AFTER_NBR_WRONG_PWD_TRIES && !useBackupHeader {
            useBackupHeader, again := true, true;
          }
        }
        return;
      }
      wrongPwdRetryCounter := 0;
      result := if exclusiveAccess then 1 else 2;
    }

    /** refused is the result when a check in front of the loop ends the call. */
    method MountVolume(o: Options, refused: Option<int>, turns: nat -> Turn) returns (result: int)
      modifies this
      ensures refused.Some? ==>
                && result == refused.value && requests == old(requests)
                && wrongPwdRetryCounter == old(wrongPwdRetryCounter)
      ensures refused == None ==>
                var run := RunFrom(o, Start(o, old(wrongPwdRetryCounter)), turns, 0);
                && result == run.result && requests == old(requests) + run.requests
                && wrongPwdRetryCounter == run.wrongPasswords
    {
      if refused.Some? {
        return refused.value;
      }
      hide *;
      ghost var start, sent := Start(o, wrongPwdRetryCounter), requests;
      var favoriteMountOnArrivalRetryCount: nat := 0;
      var exclusiveAccess, useBackupHeader := !o.sharedAccess, o.useBackupHeader;
      OnTheWayAtFirst(o, wrongPwdRetryCounter, sent, turns);
      var k: nat := 0;
      while true
        invariant OnTheWay(o, start, sent, turns, k, requests,
                           Loop(favoriteMountOnArrivalRetryCount, exclusiveAccess, useBackupHeader,
                                wrongPwdRetryCounter))
        decreases Left(Loop(favoriteMountOnArrivalRetryCount, exclusiveAccess, useBackupHeader, wrongPwdRetryCounter))
      {
        ghost var s := Loop(favoriteMountOnArrivalRetryCount, exclusiveAccess, useBackupHeader, wrongPwdRetryCounter);
        var turn := turns(k);
        TurnTaken(o, start, sent, turns, k, requests, s);
        if turn.pathBroken {
          return -1;
        }
        requests := requests + [Request(exclusiveAccess, useBackupHeader)];
        var again;
        again, result, favoriteMountOnArrivalRetryCount, exclusiveAccess, useBackupHeader :=
          AfterRequest(o, turn, favoriteMountOnArrivalRetryCount, exclusiveAccess, useBackupHeader);
        if !again {
          return;
        }
        AgainLeavesLess(o, s, turn);
        k := k + 1;
      }
    }
  }
}
