/** The verification session of `handle_dm` (main.py:95-133). What the bot
    does to the user (mute, block, messages, reactions, unmute) is an output
    trace of events. The answers the user gives are an input: the outcome of
    `wait_for` in attempt `k` is `outcomes[k]`, and the challenge generated
    for attempt `k` is `challenges[k]`. */
module Session {
  import opened Options
  import Ascii
  import Palette

  /** A day in microseconds, the unit of the timestamps below. */
  const MicrosPerDay: int := 86_400_000_000

  /** The settings a session reads, taken from the configuration once at
      start-up (main.py:15-20): the screening thresholds and the colour
      entries of `captcha_colors`. */
  datatype Policy = Policy(minAccountAge: int, blockDefaultAvatars: bool, retryLimit: int,
                           colors: map<string, string>)

  /** The author of the direct message: account creation time in
      microseconds, and whether the account has no avatar of its own, so
      that Discord shows it a default one. */
  datatype Account = Account(createdAt: int, defaultAvatar: bool)

  /** What `wait_for` returns within its 60 seconds: a reply, or a timeout. */
  datatype Outcome = Reply(text: string) | Timeout

  datatype Mark = CheckMark | CrossMark

  datatype Event =
    | Mute                       // dm_channel.edit(muted=True)
    | Unmute                     // dm_channel.edit(muted=False)
    | Block                      // author.block()
    | SendPrompt                 // the instructions message
    | SendImage(challenge: string) // the CAPTCHA picture of `challenge`
    | React(mark: Mark)          // response.add_reaction

  /** `(utcnow() - created_at).days`: whole days, rounded down. */
  function AccountAgeDays(now: int, createdAt: int): (days: int)
    ensures days * MicrosPerDay <= now - createdAt < (days + 1) * MicrosPerDay
  {
    (now - createdAt) / MicrosPerDay
  }

  /** The two checks before any challenge (main.py:98-105). */
  predicate ScreenedOut(p: Policy, a: Account, now: int) {
    AccountAgeDays(now, a.createdAt) < p.minAccountAge
    || (p.blockDefaultAvatars && a.defaultAvatar)
  }

  /** The number of iterations of `range(CAPTCHA_RETRY_LIMIT)`. */
  function Attempts(p: Policy): nat {
    if p.retryLimit < 0 then 0 else p.retryLimit
  }

  /** A reply matches its challenge when the two agree character by
      character up to case; `MatchesIffLowerEqual` shows this is the test
      `response.content.lower() == captcha_text.lower()`. */
  predicate Matches(reply: string, challenge: string) {
    |reply| == |challenge|
    && forall i :: 0 <= i < |reply| ==> Ascii.LowerChar(reply[i]) == Ascii.LowerChar(challenge[i])
  }

  predicate Solved(challenge: string, o: Outcome) {
    o.Reply? && Matches(o.text, challenge)
  }

  /** What follows the two messages of an attempt: nothing after a timeout,
      the unmute and the check mark after a matching reply, the cross after
      any other reply. */
  function Response(challenge: string, o: Outcome): seq<Event> {
    match o
    case Timeout => []
    case Reply(text) =>
      if Matches(text, challenge) then [Unmute, React(CheckMark)] else [React(CrossMark)]
  }

  /** The events of one attempt. */
  function RoundEvents(challenge: string, o: Outcome): seq<Event> {
    [SendPrompt, SendImage(challenge)] + Response(challenge, o)
  }

  /** The events of the first `n` attempts. */
  function Rounds(challenges: seq<string>, outcomes: seq<Outcome>, n: nat): seq<Event>
    requires n <= |challenges| && n <= |outcomes|
  {
    if n == 0 then []
    else Rounds(challenges, outcomes, n - 1) + RoundEvents(challenges[n - 1], outcomes[n - 1])
  }

  /** The first attempt in `[i, n)` whose reply matches, if any. */
  function FirstSolved(challenges: seq<string>, outcomes: seq<Outcome>, i: nat, n: nat): (j: Option<nat>)
    requires i <= n <= |challenges| && n <= |outcomes|
    ensures j.Some? ==> i <= j.value < n && Solved(challenges[j.value], outcomes[j.value])
    ensures j.Some? ==> forall k :: i <= k < j.value ==> !Solved(challenges[k], outcomes[k])
    ensures j.None? <==> forall k :: i <= k < n ==> !Solved(challenges[k], outcomes[k])
    decreases n - i
  {
    if i == n then None
    else if Solved(challenges[i], outcomes[i]) then Some(i)
    else FirstSolved(challenges, outcomes, i + 1, n)
  }

  /** The whole trace of a session: mute, then either a block from the
      screening, or the attempts up to the first match, or all attempts and a
      block. */
  function Session(p: Policy, a: Account, now: int, challenges: seq<string>, outcomes: seq<Outcome>): seq<Event>
    requires Attempts(p) <= |challenges| && Attempts(p) <= |outcomes|
  {
    [Mute]
    + if ScreenedOut(p, a, now) then [Block]
      else match FirstSolved(challenges, outcomes, 0, Attempts(p))
        case Some(j) => Rounds(challenges, outcomes, j + 1)
        case None => Rounds(challenges, outcomes, Attempts(p)) + [Block]
  }

  /** The number of attempts a session plays. */
  function Played(p: Policy, a: Account, now: int, challenges: seq<string>, outcomes: seq<Outcome>): (m: nat)
    requires Attempts(p) <= |challenges| && Attempts(p) <= |outcomes|
    ensures m <= Attempts(p)
  {
    if ScreenedOut(p, a, now) then 0
    else match FirstSolved(challenges, outcomes, 0, Attempts(p))
      case Some(j) => j + 1
      case None => Attempts(p)
  }

  /** The colour entries fail to parse, and the first attempt, which parses
      them in `create_captcha_image` (main.py:109, 29-32), raises after the
      mute and before any message is sent. */
  predicate Strands(p: Policy, a: Account, now: int) {
    !ScreenedOut(p, a, now) && Attempts(p) > 0 && Palette.ParsePalette(p.colors).None?
  }

  /** What `handle_dm` does: the session, or only the mute when the palette
      makes the first attempt raise. */
  function DmTrace(p: Policy, a: Account, now: int, challenges: seq<string>, outcomes: seq<Outcome>): seq<Event>
    requires Attempts(p) <= |challenges| && Attempts(p) <= |outcomes|
  {
    if Strands(p, a, now) then [Mute] else Session(p, a, now, challenges, outcomes)
  }

  /** `handle_dm(message)` */
  method HandleDm(p: Policy, a: Account, now: int, challenges: seq<string>, outcomes: seq<Outcome>)
    returns (trace: seq<Event>)
    requires Attempts(p) <= |challenges| && Attempts(p) <= |outcomes|
    ensures trace == DmTrace(p, a, now, challenges, outcomes)
  {
    trace := [Mute];
    var accountAgeDays := AccountAgeDays(now, a.createdAt);
    if accountAgeDays < p.minAccountAge {
      trace := trace + [Block];
      return;
    }
    if p.blockDefaultAvatars && a.defaultAvatar {
      trace := trace + [Block];
      return;
    }
    var n := Attempts(p);
    // The first attempt parses the palette before it sends anything, so a
    // palette that does not parse ends the handler right after the mute.
    if n > 0 && Palette.ParsePalette(p.colors).None? {
      return;
    }
    var rounds := PlayAttempts(challenges, outcomes, n);
    trace := trace + rounds;
  }

  /** The `for`/`else` loop of main.py:107-133 over `n` attempts: each sends
      the prompt and the picture and reacts to a reply; the loop stops after
      the first match, and blocks when it runs out without one. */
  method PlayAttempts(challenges: seq<string>, outcomes: seq<Outcome>, n: nat) returns (trace: seq<Event>)
    requires n <= |challenges| && n <= |outcomes|
    ensures FirstSolved(challenges, outcomes, 0, n).Some? ==>
      trace == Rounds(challenges, outcomes, FirstSolved(challenges, outcomes, 0, n).value + 1)
    ensures FirstSolved(challenges, outcomes, 0, n).None? ==>
      trace == Rounds(challenges, outcomes, n) + [Block]
  {
    trace := [];
    var admitted := false;
    ghost var solvedAt: nat := 0;
    for attempt := 0 to n
      invariant trace == Rounds(challenges, outcomes, attempt)
      invariant FirstSolved(challenges, outcomes, 0, n) == FirstSolved(challenges, outcomes, attempt, n)
      invariant !admitted
    {
      var challenge := challenges[attempt];
      ghost var before := trace;
      trace := trace + [SendPrompt];
      trace := trace + [SendImage(challenge)];
      match outcomes[attempt] {
        case Reply(text) =>
          MatchesIffLowerEqual(text, challenge);
          if Ascii.Lower(text) == Ascii.Lower(challenge) {
            trace := trace + [Unmute];
            trace := trace + [React(CheckMark)];
            RoundStep(before, trace, challenges, outcomes, attempt);
            admitted := true;
            solvedAt := attempt;
            break;
          } else {
            trace := trace + [React(CrossMark)];
          }
        case Timeout =>
      }
      RoundStep(before, trace, challenges, outcomes, attempt);
    }
    if !admitted {
      trace := trace + [Block];
    } else {
      assert FirstSolved(challenges, outcomes, 0, n) == Some(solvedAt);
    }
  }

  /** One attempt extends the trace by its events. */
  lemma RoundStep(before: seq<Event>, after: seq<Event>, challenges: seq<string>, outcomes: seq<Outcome>, k: nat)
    requires k < |challenges| && k < |outcomes|
    requires before == Rounds(challenges, outcomes, k)
    requires after == before + [SendPrompt] + [SendImage(challenges[k])] + Response(challenges[k], outcomes[k])
    ensures after == Rounds(challenges, outcomes, k + 1)
  {
    var r := Response(challenges[k], outcomes[k]);
    assert [SendPrompt] + [SendImage(challenges[k])] + r == RoundEvents(challenges[k], outcomes[k]);
    assert after == before + ([SendPrompt] + [SendImage(challenges[k])] + r);
  }

  // ---- Screening ----

  /** The age check compares the exact account age with the minimum: a
      minimum of `d` days blocks an account exactly when it is younger than
      `d` whole days, so an account exactly `d` days old passes. */
  lemma AgeCheckIff(now: int, createdAt: int, minAccountAge: int)
    ensures AccountAgeDays(now, createdAt) < minAccountAge <==> now - createdAt < minAccountAge * MicrosPerDay
  {
    var days := AccountAgeDays(now, createdAt);
    if days < minAccountAge {
      assert (days + 1) * MicrosPerDay <= minAccountAge * MicrosPerDay;
    } else {
      assert minAccountAge * MicrosPerDay <= days * MicrosPerDay;
    }
  }

  /** A session ends after the mute with nothing but a block, no challenge
      sent, exactly when the account is screened out by age or avatar, or the
      retry limit allows no attempt. */
  lemma BlockedWithoutChallenge(p: Policy, a: Account, now: int, challenges: seq<string>, outcomes: seq<Outcome>)
    requires Attempts(p) <= |challenges| && Attempts(p) <= |outcomes|
    ensures Session(p, a, now, challenges, outcomes) == [Mute, Block]
      <==> ScreenedOut(p, a, now) || Attempts(p) == 0
  {
    var t := Session(p, a, now, challenges, outcomes);
    if !ScreenedOut(p, a, now) && Attempts(p) > 0 {
      var m := Played(p, a, now, challenges, outcomes);
      RoundsStart(challenges, outcomes, m);
      assert t[1] == SendPrompt;
    }
  }

  /** Once an account passes the age check, the avatar rule blocks it only
      when blocking default avatars is enabled and the account has one. */
  lemma AvatarRule(p: Policy, a: Account, now: int)
    requires AccountAgeDays(now, a.createdAt) >= p.minAccountAge
    ensures ScreenedOut(p, a, now) <==> p.blockDefaultAvatars && a.defaultAvatar
  {
  }

  /** The screening as main.py:98-105 writes it. Its avatar test is the
      truth value of `author.default_avatar`, which in discord.py 2.x is an
      `Asset` object for every account and so always true: the test does not
      depend on the account. */
  predicate ScreenedOutAsWritten(p: Policy, a: Account, now: int) {
    var defaultAvatarIsTruthy := true;
    AccountAgeDays(now, a.createdAt) < p.minAccountAge || (p.blockDefaultAvatars && defaultAvatarIsTruthy)
  }

  /** As written, the avatar rule also blocks every account that has an
      avatar of its own, which `ScreenedOut` lets through. */
  lemma AsWrittenBlocksOwnAvatars(p: Policy, a: Account, now: int)
    requires p.blockDefaultAvatars && !a.defaultAvatar
    requires AccountAgeDays(now, a.createdAt) >= p.minAccountAge
    ensures ScreenedOutAsWritten(p, a, now)
    ensures !ScreenedOut(p, a, now)
  {
  }

  /** A concrete account: created at the current instant, with its own
      avatar, under a policy with no minimum age and the avatar rule on. */
  lemma AsWrittenBlocksOwnAvatarsExample()
    ensures ScreenedOutAsWritten(Policy(0, true, 3, map[]), Account(0, false), 0)
    ensures !ScreenedOut(Policy(0, true, 3, map[]), Account(0, false), 0)
  {
    AsWrittenBlocksOwnAvatars(Policy(0, true, 3, map[]), Account(0, false), 0);
  }

  lemma {:induction false} RoundsStart(challenges: seq<string>, outcomes: seq<Outcome>, n: nat)
    requires 0 < n <= |challenges| && n <= |outcomes|
    ensures |Rounds(challenges, outcomes, n)| >= 2
    ensures Rounds(challenges, outcomes, n)[0] == SendPrompt
    ensures Rounds(challenges, outcomes, n)[1] == SendImage(challenges[0])
  {
    if n > 1 {
      RoundsStart(challenges, outcomes, n - 1);
    }
  }

  // ---- Mute, unmute and block ----

  /** Attempts never mute or block. */
  lemma {:induction false} RoundsNeverMuteOrBlock(challenges: seq<string>, outcomes: seq<Outcome>, n: nat)
    requires n <= |challenges| && n <= |outcomes|
    ensures Mute !in Rounds(challenges, outcomes, n)
    ensures Block !in Rounds(challenges, outcomes, n)
  {
    if n > 0 {
      RoundsNeverMuteOrBlock(challenges, outcomes, n - 1);
    }
  }

  /** Attempts with no matching reply never unmute. */
  lemma {:induction false} RoundsUnmuteOnlyOnMatch(challenges: seq<string>, outcomes: seq<Outcome>, n: nat)
    requires n <= |challenges| && n <= |outcomes|
    requires forall k :: 0 <= k < n ==> !Solved(challenges[k], outcomes[k])
    ensures Unmute !in Rounds(challenges, outcomes, n)
    ensures React(CheckMark) !in Rounds(challenges, outcomes, n)
  {
    if n > 0 {
      RoundsUnmuteOnlyOnMatch(challenges, outcomes, n - 1);
    }
  }

  /** The mute is the first action of every session and is never repeated. */
  lemma MuteFirst(p: Policy, a: Account, now: int, challenges: seq<string>, outcomes: seq<Outcome>)
    requires Attempts(p) <= |challenges| && Attempts(p) <= |outcomes|
    ensures |Session(p, a, now, challenges, outcomes)| >= 2
    ensures Session(p, a, now, challenges, outcomes)[0] == Mute
    ensures Mute !in Session(p, a, now, challenges, outcomes)[1..]
  {
    RoundsNeverMuteOrBlock(challenges, outcomes, Attempts(p));
    var t := Session(p, a, now, challenges, outcomes);
    if !ScreenedOut(p, a, now) {
      match FirstSolved(challenges, outcomes, 0, Attempts(p))
      case Some(j) =>
        RoundsNeverMuteOrBlock(challenges, outcomes, j + 1);
        RoundsStart(challenges, outcomes, j + 1);
        assert t[1..] == Rounds(challenges, outcomes, j + 1);
      case None =>
        assert t[1..] == Rounds(challenges, outcomes, Attempts(p)) + [Block];
    }
  }

  /** A session blocks exactly when the screening blocks or no attempt
      matched, and unmutes exactly when it does not block. */
  lemma BlockIffNoMatch(p: Policy, a: Account, now: int, challenges: seq<string>, outcomes: seq<Outcome>)
    requires Attempts(p) <= |challenges| && Attempts(p) <= |outcomes|
    ensures Block in Session(p, a, now, challenges, outcomes)
      <==> ScreenedOut(p, a, now) || forall k :: 0 <= k < Attempts(p) ==> !Solved(challenges[k], outcomes[k])
    ensures Unmute in Session(p, a, now, challenges, outcomes)
      <==> Block !in Session(p, a, now, challenges, outcomes)
  {
    var n := Attempts(p);
    if !ScreenedOut(p, a, now) {
      match FirstSolved(challenges, outcomes, 0, n)
      case Some(j) =>
        RoundsNeverMuteOrBlock(challenges, outcomes, j + 1);
        assert Unmute in RoundEvents(challenges[j], outcomes[j]);
      case None =>
        RoundsUnmuteOnlyOnMatch(challenges, outcomes, n);
    }
  }

  /** An admitted session: the mute and the attempts without a match, then
      the matching attempt, which ends with the unmute and the check mark. */
  lemma AdmittedShape(p: Policy, a: Account, now: int, challenges: seq<string>, outcomes: seq<Outcome>, j: nat)
    requires Attempts(p) <= |challenges| && Attempts(p) <= |outcomes|
    requires !ScreenedOut(p, a, now) && FirstSolved(challenges, outcomes, 0, Attempts(p)) == Some(j)
    ensures Session(p, a, now, challenges, outcomes)
      == ([Mute] + Rounds(challenges, outcomes, j)) + [SendPrompt, SendImage(challenges[j]), Unmute, React(CheckMark)]
    ensures RoundEvents(challenges[j], outcomes[j]) == [SendPrompt, SendImage(challenges[j]), Unmute, React(CheckMark)]
    ensures Unmute !in [Mute] + Rounds(challenges, outcomes, j)
    ensures React(CheckMark) !in [Mute] + Rounds(challenges, outcomes, j)
  {
    RoundsUnmuteOnlyOnMatch(challenges, outcomes, j);
    assert RoundEvents(challenges[j], outcomes[j]) == [SendPrompt, SendImage(challenges[j]), Unmute, React(CheckMark)];
  }

  /** Where an event absent from `head` occurs in `head + tail`. */
  lemma FoundInTail(head: seq<Event>, tail: seq<Event>, i: int, e: Event)
    requires e !in head && 0 <= i < |head + tail| && (head + tail)[i] == e
    ensures |head| <= i && tail[i - |head|] == e
  {
    assert forall k :: 0 <= k < |head| ==> (head + tail)[k] == head[k];
  }

  /** The unmute happens only right after a matching reply: it is followed
      by the check mark, which ends the session, and it comes right after the
      picture of the challenge that was matched. */
  lemma UnmuteOnlyAfterMatch(p: Policy, a: Account, now: int, challenges: seq<string>, outcomes: seq<Outcome>, i: int)
    requires Attempts(p) <= |challenges| && Attempts(p) <= |outcomes|
    requires 0 <= i < |Session(p, a, now, challenges, outcomes)|
    requires Session(p, a, now, challenges, outcomes)[i] == Unmute
    ensures i == |Session(p, a, now, challenges, outcomes)| - 2
    ensures Session(p, a, now, challenges, outcomes)[i + 1] == React(CheckMark)
    ensures FirstSolved(challenges, outcomes, 0, Attempts(p)).Some?
    ensures Session(p, a, now, challenges, outcomes)[i - 1]
      == SendImage(challenges[FirstSolved(challenges, outcomes, 0, Attempts(p)).value])
  {
    var n := Attempts(p);
    BlockIffNoMatch(p, a, now, challenges, outcomes);
    var j := FirstSolved(challenges, outcomes, 0, n).value;
    AdmittedShape(p, a, now, challenges, outcomes, j);
    var four := [SendPrompt, SendImage(challenges[j]), Unmute, React(CheckMark)];
    FoundInTail([Mute] + Rounds(challenges, outcomes, j), four, i, Unmute);
  }

  // ---- Challenges sent and reactions ----

  /** The number of occurrences of `e` in a trace. */
  function Count(t: seq<Event>, e: Event): nat {
    if t == [] then 0
    else Count(t[..|t| - 1], e) + if t[|t| - 1] == e then 1 else 0
  }

  /** The challenges whose pictures appear in a trace, in order. */
  function ImagesSent(t: seq<Event>): seq<string> {
    if t == [] then []
    else ImagesSent(t[..|t| - 1]) + if t[|t| - 1].SendImage? then [t[|t| - 1].challenge] else []
  }

  lemma {:induction false} CountConcat(s: seq<Event>, t: seq<Event>, e: Event)
    ensures Count(s + t, e) == Count(s, e) + Count(t, e)
    decreases |t|
  {
    if t != [] {
      var u := s + t;
      assert u[..|u| - 1] == s + t[..|t| - 1];
      assert u[|u| - 1] == t[|t| - 1];
      CountConcat(s, t[..|t| - 1], e);
    } else {
      assert s + t == s;
    }
  }

  lemma {:induction false} ImagesSentConcat(s: seq<Event>, t: seq<Event>)
    ensures ImagesSent(s + t) == ImagesSent(s) + ImagesSent(t)
    decreases |t|
  {
    if t != [] {
      var u := s + t;
      assert u[..|u| - 1] == s + t[..|t| - 1];
      assert u[|u| - 1] == t[|t| - 1];
      ImagesSentConcat(s, t[..|t| - 1]);
    } else {
      assert s + t == s;
    }
  }

  lemma {:induction false} CountAbsent(t: seq<Event>, e: Event)
    requires e !in t
    ensures Count(t, e) == 0
  {
    if t != [] {
      assert t[..|t| - 1] + [t[|t| - 1]] == t;
      CountAbsent(t[..|t| - 1], e);
    }
  }

  lemma CountShort(x: Event, y: Event, e: Event)
    ensures Count([], e) == 0
    ensures Count([x], e) == if x == e then 1 else 0
    ensures Count([x, y], e) == Count([x], e) + if y == e then 1 else 0
  {
    assert [x][..0] == [];
    assert [x, y][..1] == [x];
  }

  lemma ImagesSentShort(x: Event, y: Event)
    ensures ImagesSent([]) == []
    ensures ImagesSent([x]) == if x.SendImage? then [x.challenge] else []
    ensures ImagesSent([x, y]) == ImagesSent([x]) + if y.SendImage? then [y.challenge] else []
  {
    assert [x][..0] == [];
    assert [x, y][..1] == [x];
  }

  /** One attempt sends the picture of its own challenge. */
  lemma RoundImage(challenge: string, o: Outcome)
    ensures ImagesSent(RoundEvents(challenge, o)) == [challenge]
  {
    var head: seq<Event> := [SendPrompt, SendImage(challenge)];
    var tail := Response(challenge, o);
    ImagesSentConcat(head, tail);
    ImagesSentShort(SendPrompt, SendImage(challenge));
    if tail != [] {
      ImagesSentShort(tail[0], tail[|tail| - 1]);
    }
  }

  /** One attempt sends one prompt and reacts once to a reply: the check
      mark if it matches, the cross otherwise; a timeout gets no reaction. */
  lemma RoundPromptsAndReactions(challenge: string, o: Outcome)
    ensures Count(RoundEvents(challenge, o), SendPrompt) == 1
    ensures Count(RoundEvents(challenge, o), React(CheckMark)) == if Solved(challenge, o) then 1 else 0
    ensures Count(RoundEvents(challenge, o), React(CrossMark)) == if o.Reply? && !Solved(challenge, o) then 1 else 0
  {
    var head: seq<Event> := [SendPrompt, SendImage(challenge)];
    var tail := Response(challenge, o);
    forall e | e in {SendPrompt, React(CheckMark), React(CrossMark)}
      ensures Count(RoundEvents(challenge, o), e) == Count(head, e) + Count(tail, e)
      ensures Count(head, e) == if e == SendPrompt then 1 else 0
    {
      CountConcat(head, tail, e);
      CountShort(SendPrompt, SendImage(challenge), e);
    }
    if tail != [] {
      CountShort(tail[0], tail[|tail| - 1], SendPrompt);
      CountShort(tail[0], tail[|tail| - 1], React(CheckMark));
      CountShort(tail[0], tail[|tail| - 1], React(CrossMark));
    }
  }

  /** The number of replies among the first `n` outcomes. */
  function Replies(outcomes: seq<Outcome>, n: nat): nat
    requires n <= |outcomes|
  {
    if n == 0 then 0 else Replies(outcomes, n - 1) + if outcomes[n - 1].Reply? then 1 else 0
  }

  /** The first `n` attempts send the pictures of the first `n` challenges,
      in order. */
  lemma {:induction false} RoundsImages(challenges: seq<string>, outcomes: seq<Outcome>, n: nat)
    requires n <= |challenges| && n <= |outcomes|
    ensures ImagesSent(Rounds(challenges, outcomes, n)) == challenges[..n]
  {
    if n > 0 {
      RoundsImages(challenges, outcomes, n - 1);
      RoundImage(challenges[n - 1], outcomes[n - 1]);
      ImagesStep(Rounds(challenges, outcomes, n), Rounds(challenges, outcomes, n - 1),
        RoundEvents(challenges[n - 1], outcomes[n - 1]), challenges[..n - 1], challenges[n - 1]);
      PrefixSnoc(challenges, n);
    }
  }

  /** Appending a round that sends one picture appends that picture. */
  lemma ImagesStep(t: seq<Event>, before: seq<Event>, round: seq<Event>, sent: seq<string>, c: string)
    requires t == before + round
    requires ImagesSent(before) == sent && ImagesSent(round) == [c]
    ensures ImagesSent(t) == sent + [c]
  {
    ImagesSentConcat(before, round);
  }

  lemma PrefixSnoc(s: seq<string>, n: nat)
    requires 0 < n <= |s|
    ensures s[..n] == s[..n - 1] + [s[n - 1]]
  {
  }

  /** The first `n` attempts send one prompt each. */
  lemma {:induction false} RoundsPrompts(challenges: seq<string>, outcomes: seq<Outcome>, n: nat)
    requires n <= |challenges| && n <= |outcomes|
    ensures Count(Rounds(challenges, outcomes, n), SendPrompt) == n
  {
    if n > 0 {
      RoundsPrompts(challenges, outcomes, n - 1);
      RoundPromptsAndReactions(challenges[n - 1], outcomes[n - 1]);
      CountConcat(Rounds(challenges, outcomes, n - 1), RoundEvents(challenges[n - 1], outcomes[n - 1]), SendPrompt);
    }
  }

  /** The first `n` attempts react once to each reply. */
  lemma {:induction false} RoundsReactions(challenges: seq<string>, outcomes: seq<Outcome>, n: nat)
    requires n <= |challenges| && n <= |outcomes|
    ensures Count(Rounds(challenges, outcomes, n), React(CheckMark))
      + Count(Rounds(challenges, outcomes, n), React(CrossMark)) == Replies(outcomes, n)
  {
    if n > 0 {
      RoundsReactions(challenges, outcomes, n - 1);
      var prev := Rounds(challenges, outcomes, n - 1);
      var r := RoundEvents(challenges[n - 1], outcomes[n - 1]);
      RoundPromptsAndReactions(challenges[n - 1], outcomes[n - 1]);
      CountConcat(prev, r, React(CheckMark));
      CountConcat(prev, r, React(CrossMark));
    }
  }

  /** The trace of a session is the mute, the attempts played, and the
      closing block unless an attempt matched. */
  lemma SessionShape(p: Policy, a: Account, now: int, challenges: seq<string>, outcomes: seq<Outcome>)
    requires Attempts(p) <= |challenges| && Attempts(p) <= |outcomes|
    ensures Session(p, a, now, challenges, outcomes)
      == [Mute] + Rounds(challenges, outcomes, Played(p, a, now, challenges, outcomes))
         + if ScreenedOut(p, a, now) || FirstSolved(challenges, outcomes, 0, Attempts(p)).None? then [Block] else []
  {
    if ScreenedOut(p, a, now) {
      assert Rounds(challenges, outcomes, 0) == [];
    }
  }

  /** The mute and the closing block add no picture, prompt or reaction. */
  lemma FramedCounts(r: seq<Event>, tail: seq<Event>, e: Event)
    requires tail == [] || tail == [Block]
    requires e != Mute && e != Block
    ensures ImagesSent([Mute] + r + tail) == ImagesSent(r)
    ensures Count([Mute] + r + tail, e) == Count(r, e)
  {
    ImagesSentConcat([Mute], r);
    ImagesSentConcat([Mute] + r, tail);
    CountConcat([Mute], r, e);
    CountConcat([Mute] + r, tail, e);
    ImagesSentShort(Mute, Block);
    ImagesSentShort(Block, Block);
    CountShort(Mute, Block, e);
    CountShort(Block, Block, e);
  }

  /** A session sends the challenges of the attempts it plays, one prompt
      with each, and plays at most `CAPTCHA_RETRY_LIMIT` attempts; after a
      match no further challenge is sent, and a session without a match plays
      every attempt. */
  lemma SessionSends(p: Policy, a: Account, now: int, challenges: seq<string>, outcomes: seq<Outcome>)
    requires Attempts(p) <= |challenges| && Attempts(p) <= |outcomes|
    ensures ImagesSent(Session(p, a, now, challenges, outcomes))
      == challenges[..Played(p, a, now, challenges, outcomes)]
    ensures Count(Session(p, a, now, challenges, outcomes), SendPrompt)
      == Played(p, a, now, challenges, outcomes)
    ensures Played(p, a, now, challenges, outcomes) <= Attempts(p)
    ensures !ScreenedOut(p, a, now) && FirstSolved(challenges, outcomes, 0, Attempts(p)).None?
      ==> Played(p, a, now, challenges, outcomes) == Attempts(p)
  {
    var m := Played(p, a, now, challenges, outcomes);
    var tail: seq<Event> := if ScreenedOut(p, a, now) || FirstSolved(challenges, outcomes, 0, Attempts(p)).None? then [Block] else [];
    SessionShape(p, a, now, challenges, outcomes);
    FramedCounts(Rounds(challenges, outcomes, m), tail, SendPrompt);
    RoundsImages(challenges, outcomes, m);
    RoundsPrompts(challenges, outcomes, m);
  }

  /** In a whole session the reactions are one per reply received. */
  lemma SessionReactions(p: Policy, a: Account, now: int, challenges: seq<string>, outcomes: seq<Outcome>)
    requires Attempts(p) <= |challenges| && Attempts(p) <= |outcomes|
    ensures Count(Session(p, a, now, challenges, outcomes), React(CheckMark))
      + Count(Session(p, a, now, challenges, outcomes), React(CrossMark))
      == Replies(outcomes, Played(p, a, now, challenges, outcomes))
  {
    var m := Played(p, a, now, challenges, outcomes);
    var r := Rounds(challenges, outcomes, m);
    var tail: seq<Event> := if ScreenedOut(p, a, now) || FirstSolved(challenges, outcomes, 0, Attempts(p)).None? then [Block] else [];
    SessionShape(p, a, now, challenges, outcomes);
    FramedCounts(r, tail, React(CheckMark));
    FramedCounts(r, tail, React(CrossMark));
    RoundsReactions(challenges, outcomes, m);
  }

  /** The check mark is given at most once, as the last action. */
  lemma CheckMarkLast(p: Policy, a: Account, now: int, challenges: seq<string>, outcomes: seq<Outcome>)
    requires Attempts(p) <= |challenges| && Attempts(p) <= |outcomes|
    ensures Count(Session(p, a, now, challenges, outcomes), React(CheckMark)) <= 1
    ensures React(CheckMark) in Session(p, a, now, challenges, outcomes)
      ==> Session(p, a, now, challenges, outcomes)[|Session(p, a, now, challenges, outcomes)| - 1] == React(CheckMark)
  {
    var t := Session(p, a, now, challenges, outcomes);
    if ScreenedOut(p, a, now) {
      CountShort(Mute, Block, React(CheckMark));
    } else {
      match FirstSolved(challenges, outcomes, 0, Attempts(p))
      case Some(j) =>
        var head := [Mute] + Rounds(challenges, outcomes, j);
        var four := [SendPrompt, SendImage(challenges[j]), Unmute, React(CheckMark)];
        AdmittedShape(p, a, now, challenges, outcomes, j);
        CountAbsent(head, React(CheckMark));
        RoundPromptsAndReactions(challenges[j], outcomes[j]);
        CountConcat(head, four, React(CheckMark));
      case None =>
        RoundsUnmuteOnlyOnMatch(challenges, outcomes, Attempts(p));
        CountAbsent(t, React(CheckMark));
    }
  }

  // ---- Matching ----

  /** The match is exactly the source's comparison of the lower-cased texts. */
  lemma MatchesIffLowerEqual(reply: string, challenge: string)
    ensures Matches(reply, challenge) <==> Ascii.Lower(reply) == Ascii.Lower(challenge)
  {
    Ascii.LowerEqualIff(reply, challenge);
  }

  // ---- Attempts played ----

  /** A wrong answer and a timeout each use up one attempt and neither ends
      the loop: once screening passes, the challenge of attempt `k` is sent
      exactly when no earlier attempt matched. */
  lemma AttemptPlayedIff(p: Policy, a: Account, now: int, challenges: seq<string>, outcomes: seq<Outcome>, k: nat)
    requires Attempts(p) <= |challenges| && Attempts(p) <= |outcomes|
    requires !ScreenedOut(p, a, now) && k < Attempts(p)
    ensures k < |ImagesSent(Session(p, a, now, challenges, outcomes))|
      <==> forall i :: 0 <= i < k ==> !Solved(challenges[i], outcomes[i])
    ensures k < |ImagesSent(Session(p, a, now, challenges, outcomes))|
      ==> ImagesSent(Session(p, a, now, challenges, outcomes))[k] == challenges[k]
  {
    SessionSends(p, a, now, challenges, outcomes);
    var m := Played(p, a, now, challenges, outcomes);
    assert |challenges[..m]| == m;
    match FirstSolved(challenges, outcomes, 0, Attempts(p))
    case Some(j) =>
      assert m == j + 1;
      assert Solved(challenges[j], outcomes[j]);
    case None =>
  }

  // ---- A palette that does not parse ----

  /** A session ends with the contact neither blocked nor unmuted exactly
      when the palette makes the first attempt raise. */
  lemma StrandedIff(p: Policy, a: Account, now: int, challenges: seq<string>, outcomes: seq<Outcome>)
    requires Attempts(p) <= |challenges| && Attempts(p) <= |outcomes|
    ensures (Block !in DmTrace(p, a, now, challenges, outcomes) && Unmute !in DmTrace(p, a, now, challenges, outcomes))
      <==> Strands(p, a, now)
    ensures Strands(p, a, now) ==> DmTrace(p, a, now, challenges, outcomes) == [Mute]
  {
    if !Strands(p, a, now) {
      BlockIffNoMatch(p, a, now, challenges, outcomes);
    }
  }

  /** With well-formed colour entries every session runs in full. */
  lemma WellFormedColorsRunSession(p: Policy, a: Account, now: int, challenges: seq<string>, outcomes: seq<Outcome>)
    requires Attempts(p) <= |challenges| && Attempts(p) <= |outcomes|
    requires "background" in p.colors && Palette.WellFormed(p.colors["background"])
    requires "text" in p.colors && Palette.WellFormed(p.colors["text"])
    requires "noise" in p.colors && Palette.WellFormed(p.colors["noise"])
    requires "line" in p.colors && Palette.WellFormed(p.colors["line"])
    ensures DmTrace(p, a, now, challenges, outcomes) == Session(p, a, now, challenges, outcomes)
  {
    Palette.ParsePaletteWellFormed(p.colors);
  }
}
