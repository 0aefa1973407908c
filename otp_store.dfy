/** The in-memory one-time-passcode store of the server (services/otpStore.js):
    one entry per normalised e-mail address, holding the code and the instant it
    expires. Codes are issued by overwriting, read without being consumed, and
    consumed by a single successful check; an expired entry is evicted by the next
    read of its key and never accepted. The clock is the `now` parameter of each
    operation (milliseconds, as `Date.now()` gives them). */
module OtpStore {
  import opened Wrappers
  import opened AsciiText

  datatype Entry = Entry(otp: string, expiresAt: int)

  /** The module-level `Map` of the source, as a value. */
  type Store = map<string, Entry>

  /** What an operation answers, together with the store it leaves behind. */
  datatype Step<T> = Step(result: T, after: Store)

  const DefaultExpiryMinutes: int := 10
  const MsPerMinute: int := 60 * 1000

  /** `EXPIRY_MS`: the configured number of minutes, as `parseInt` reads it (`None`
      for NaN), falling back to 10 minutes when that is NaN or 0, in milliseconds. */
  function ExpiryMs(configuredMinutes: Option<int>): (ms: int)
    ensures configuredMinutes.None? || configuredMinutes == Some(0) ==> ms == 600000
    ensures configuredMinutes.Some? && configuredMinutes.value != 0 ==> ms == configuredMinutes.value * 60000
    ensures ms != 0
    ensures ms > 0 <==> configuredMinutes.None? || configuredMinutes.value >= 0
  {
    var minutes := if configuredMinutes.None? || configuredMinutes.value == 0 then DefaultExpiryMinutes
                   else configuredMinutes.value;
    minutes * MsPerMinute
  }

  /** `generateOTP`: `Math.floor(100000 + Math.random() * 900000)` rendered in
      decimal, with the random draw abstracted to `roll`, the drawn number minus 100000,
      that is `Math.floor(100000 + Math.random() * 900000) - 100000`. */
  function GenerateOtp(roll: nat): (code: string)
    requires roll < 900000
    ensures |code| == 6 && AllDigits(code) && code[0] != '0'
    ensures DecimalValue(code) == 100000 + roll
  {
    SixDigitBounds();
    DecimalLength(100000 + roll, 6);
    DecimalRoundTrip(100000 + roll);
    DecimalString(100000 + roll)
  }

  lemma SixDigitBounds()
    ensures Pow10(5) == 100000 && Pow10(6) == 1000000
  {
    assert Pow10(1) == 10;
    assert Pow10(2) == 100;
    assert Pow10(3) == 1000;
    assert Pow10(4) == 10000;
  }

  /** An entry is live at `now` unless `now` is strictly past its expiry instant. */
  predicate IsLive(s: Store, key: string, now: int)
  {
    key in s && now <= s[key].expiresAt
  }

  /** The two stores agree on every key but `key`. */
  ghost predicate SameExcept(s: Store, t: Store, key: string)
  {
    forall k :: k != key ==> (k in s <==> k in t) && (k in s ==> s[k] == t[k])
  }

  /** `set`: files the code under the normalised address, replacing whatever was there. */
  function SetStep(s: Store, email: string, otp: string, now: int, expiryMs: int): (t: Store)
    ensures Normalize(email) in t && t[Normalize(email)] == Entry(otp, now + expiryMs)
    ensures SameExcept(s, t, Normalize(email))
  {
    s[Normalize(email) := Entry(otp, now + expiryMs)]
  }

  /** `get`: the code of a live entry, without consuming it; an expired entry is
      evicted and reported as absent. */
  function GetStep(s: Store, email: string, now: int): (r: Step<Option<string>>)
    ensures r.result.Some? <==> IsLive(s, Normalize(email), now)
    ensures r.result.Some? ==> r.result.value == s[Normalize(email)].otp
    ensures IsLive(s, Normalize(email), now) || Normalize(email) !in s ==> r.after == s
    ensures Normalize(email) in s && !IsLive(s, Normalize(email), now) ==> r.after == s - {Normalize(email)}
  {
    var key := Normalize(email);
    if key !in s then Step(None, s)
    else if now > s[key].expiresAt then Step(None, s - {key})
    else Step(Some(s[key].otp), s)
  }

  /** `verifyAndClear`: accepts exactly a live entry whose code equals the trimmed
      submission, and consumes it; an expired entry is evicted; a wrong code and a
      missing entry leave the store as it was. */
  function VerifyStep(s: Store, email: string, code: string, now: int): (r: Step<bool>)
    ensures r.result <==> IsLive(s, Normalize(email), now) && s[Normalize(email)].otp == Trim(code)
    ensures r.result ==> r.after == s - {Normalize(email)}
    ensures Normalize(email) in s && !IsLive(s, Normalize(email), now) ==> r.after == s - {Normalize(email)}
    ensures !r.result && (IsLive(s, Normalize(email), now) || Normalize(email) !in s) ==> r.after == s
  {
    var key := Normalize(email);
    if key !in s then Step(false, s)
    else if now > s[key].expiresAt then Step(false, s - {key})
    else
      var matched := s[key].otp == Trim(code);
      Step(matched, if matched then s - {key} else s)
  }

  /** The store object. The source keeps it as a module-level `Map`; here it is an
      object whose `store` field the operations reassign. */
  class PasscodeStore {
    const expiryMs: int
    var store: Store

    constructor (expiryMs: int)
      ensures this.expiryMs == expiryMs && store == map[]
    {
      this.expiryMs := expiryMs;
      store := map[];
    }

    method Set(email: string, otp: string, now: int)
      modifies this
      ensures store == SetStep(old(store), email, otp, now, expiryMs)
    {
      var expiresAt := now + expiryMs;
      store := store[Normalize(email) := Entry(otp, expiresAt)];
    }

    method Get(email: string, now: int) returns (otp: Option<string>)
      modifies this
      ensures Step(otp, store) == GetStep(old(store), email, now)
    {
      var key := Normalize(email);
      if key !in store {
        return None;
      }
      var entry := store[key];
      if now > entry.expiresAt {
        store := store - {key};
        return None;
      }
      otp := Some(entry.otp);
    }

    method VerifyAndClear(email: string, code: string, now: int) returns (matched: bool)
      modifies this
      ensures Step(matched, store) == VerifyStep(old(store), email, code, now)
    {
      var key := Normalize(email);
      if key !in store {
        return false;
      }
      var entry := store[key];
      if now > entry.expiresAt {
        store := store - {key};
        return false;
      }
      matched := entry.otp == Trim(code);
      if matched {
        store := store - {key};
      }
    }
  }

  // ---------------------------------------------------------------------------
  // Properties of single operations and of their combinations.

  /** A generated code is its own trim, so submitting it verbatim matches it. */
  lemma GeneratedOtpIsTrimmed(roll: nat)
    requires roll < 900000
    ensures Trim(GenerateOtp(roll)) == GenerateOtp(roll)
  {
    var code := GenerateOtp(roll);
    assert !IsSpace(code[0]) && !IsSpace(code[|code| - 1]) by {
      assert IsDigit(code[0]) && IsDigit(code[|code| - 1]);
    }
    TrimOfTrimmed(code);
  }

  /** Issuing a generated code and then submitting it, for any spelling of the same
      address, before the expiry instant, succeeds once; submitting it again fails. */
  lemma IssueThenVerify(s: Store, email: string, sameEmail: string, roll: nat,
                        issuedAt: int, expiryMs: int, now: int, later: int)
    requires roll < 900000 && expiryMs >= 0
    requires Normalize(sameEmail) == Normalize(email)
    requires issuedAt <= now <= issuedAt + expiryMs
    ensures var code := GenerateOtp(roll);
            var first := VerifyStep(SetStep(s, email, code, issuedAt, expiryMs), sameEmail, code, now);
            first.result && !VerifyStep(first.after, sameEmail, code, later).result
  {
    GeneratedOtpIsTrimmed(roll);
  }

  /** Issuing again for the same address invalidates the earlier code: afterwards
      only the later code can verify. */
  lemma ReissueInvalidatesEarlierCode(s: Store, email: string, earlier: string, later: string,
                                      t1: int, t2: int, expiryMs: int,
                                      sameEmail: string, submitted: string, now: int)
    requires Normalize(sameEmail) == Normalize(email)
    ensures var twice := SetStep(SetStep(s, email, earlier, t1, expiryMs), email, later, t2, expiryMs);
            VerifyStep(twice, sameEmail, submitted, now).result ==> Trim(submitted) == later
  {
  }

  /** A wrong code neither succeeds nor consumes the entry, so the right code still
      succeeds afterwards while the entry is live. */
  lemma WrongCodeKeepsEntry(s: Store, email: string, wrong: string, right: string, now: int, later: int)
    requires IsLive(s, Normalize(email), later) && now <= later
    requires Trim(wrong) != s[Normalize(email)].otp && Trim(right) == s[Normalize(email)].otp
    ensures var miss := VerifyStep(s, email, wrong, now);
            !miss.result && miss.after == s && VerifyStep(miss.after, email, right, later).result
  {
  }

  /** `get` and `verifyAndClear` fail and change nothing when the address has no entry. */
  lemma MissingEntryChangesNothing(s: Store, email: string, code: string, now: int)
    requires Normalize(email) !in s
    ensures GetStep(s, email, now) == Step(None, s)
    ensures VerifyStep(s, email, code, now) == Step(false, s)
  {
  }

  /** The boundary of expiry: at the expiry instant the entry is still live, one
      millisecond later it is evicted by either read. */
  lemma ExpiryBoundary(s: Store, email: string, code: string)
    requires Normalize(email) in s
    ensures var at := s[Normalize(email)].expiresAt;
            GetStep(s, email, at).result == Some(s[Normalize(email)].otp)
            && GetStep(s, email, at + 1) == Step(None, s - {Normalize(email)})
            && VerifyStep(s, email, code, at + 1) == Step(false, s - {Normalize(email)})
  {
  }

  // ---------------------------------------------------------------------------
  // Sequences of calls.

  datatype Call =
    | SetCall(email: string, otp: string, now: int)
    | GetCall(email: string, now: int)
    | VerifyCall(email: string, code: string, now: int)

  datatype Answer = Stored | Peeked(otp: Option<string>) | Verified(ok: bool)

  /** An answer that gives nothing away: no code read, no code accepted. */
  predicate Refused(a: Answer)
  {
    a == Peeked(None) || a == Verified(false)
  }

  predicate Reissues(c: Call, key: string)
  {
    c.SetCall? && Normalize(c.email) == key
  }

  predicate Concerns(c: Call, key: string)
  {
    Normalize(c.email) == key
  }

  function Apply(s: Store, c: Call, expiryMs: int): Step<Answer>
  {
    match c
    case SetCall(email, otp, now) => Step(Stored, SetStep(s, email, otp, now, expiryMs))
    case GetCall(email, now) => var r := GetStep(s, email, now); Step(Peeked(r.result), r.after)
    case VerifyCall(email, code, now) => var r := VerifyStep(s, email, code, now); Step(Verified(r.result), r.after)
  }

  /** The answers to a sequence of calls made one after the other, and the store they
      leave behind. */
  function Run(s: Store, calls: seq<Call>, expiryMs: int): (r: Step<seq<Answer>>)
    ensures |r.result| == |calls|
    decreases |calls|
  {
    if calls == [] then Step([], s)
    else
      var first := Apply(s, calls[0], expiryMs);
      var rest := Run(first.after, calls[1..], expiryMs);
      Step([first.result] + rest.result, rest.after)
  }

  /** The answers after the first are those of the remaining calls, run on the
      store the first call leaves behind. */
  lemma RunTail(s: Store, calls: seq<Call>, expiryMs: int, i: nat)
    requires 0 < i < |calls|
    ensures Run(s, calls, expiryMs).result[i]
            == Run(Apply(s, calls[0], expiryMs).after, calls[1..], expiryMs).result[i - 1]
  {
  }

  /** One call that does not reissue for `key` keeps `key` absent and refuses it. */
  lemma ApplyKeepsAbsent(s: Store, key: string, c: Call, expiryMs: int)
    requires key !in s && !Reissues(c, key)
    ensures key !in Apply(s, c, expiryMs).after
    ensures Concerns(c, key) ==> Refused(Apply(s, c, expiryMs).result)
  {
  }

  /** Once an address has no entry, nothing but a new `set` for it gives one back:
      until then every read and every check for it is refused. */
  lemma {:induction false} AbsentStaysRefused(s: Store, key: string, calls: seq<Call>, expiryMs: int)
    requires key !in s
    requires forall i :: 0 <= i < |calls| ==> !Reissues(calls[i], key)
    ensures key !in Run(s, calls, expiryMs).after
    ensures forall i :: 0 <= i < |calls| && Concerns(calls[i], key) ==> Refused(Run(s, calls, expiryMs).result[i])
    decreases |calls|
  {
    if calls != [] {
      var after := Apply(s, calls[0], expiryMs).after;
      ApplyKeepsAbsent(s, key, calls[0], expiryMs);
      AbsentStaysRefused(after, key, calls[1..], expiryMs);
      forall i | 0 <= i < |calls| && Concerns(calls[i], key)
        ensures Refused(Run(s, calls, expiryMs).result[i])
      {
        if i > 0 {
          RunTail(s, calls, expiryMs, i);
          assert calls[1..][i - 1] == calls[i];
        }
      }
    }
  }

  /** A code is consumed at most once: after a successful check, no later check or
      read for that address succeeds until a new code is issued for it. */
  lemma ConsumedAtMostOnce(s: Store, email: string, code: string, now: int,
                           calls: seq<Call>, expiryMs: int)
    requires VerifyStep(s, email, code, now).result
    requires forall i :: 0 <= i < |calls| ==> !Reissues(calls[i], Normalize(email))
    ensures var r := Run(VerifyStep(s, email, code, now).after, calls, expiryMs);
            forall i :: 0 <= i < |calls| && Concerns(calls[i], Normalize(email)) ==> Refused(r.result[i])
  {
    AbsentStaysRefused(VerifyStep(s, email, code, now).after, Normalize(email), calls, expiryMs);
  }

  /** One call that does not reissue for `key` keeps its entry, if any, as it was or
      removes it, and refuses it after `deadline` when that entry expires by then. */
  lemma ApplyKeepsDeadline(s: Store, key: string, deadline: int, c: Call, expiryMs: int)
    requires key in s ==> s[key].expiresAt <= deadline
    requires !Reissues(c, key)
    ensures var after := Apply(s, c, expiryMs).after;
            key in after ==> after[key].expiresAt <= deadline
    ensures Concerns(c, key) && c.now > deadline ==> Refused(Apply(s, c, expiryMs).result)
  {
  }

  /** A code is never accepted after its expiry instant: if the entry for `key`
      expires by `deadline`, then, short of a new `set` for it, every read or check
      for it made after `deadline` is refused. */
  lemma {:induction false} NeverAcceptedAfterExpiry(s: Store, key: string, deadline: int,
                                                    calls: seq<Call>, expiryMs: int)
    requires key in s ==> s[key].expiresAt <= deadline
    requires forall i :: 0 <= i < |calls| ==> !Reissues(calls[i], key)
    ensures var r := Run(s, calls, expiryMs);
            forall i :: 0 <= i < |calls| && Concerns(calls[i], key) && calls[i].now > deadline ==> Refused(r.result[i])
    decreases |calls|
  {
    if calls != [] {
      var after := Apply(s, calls[0], expiryMs).after;
      ApplyKeepsDeadline(s, key, deadline, calls[0], expiryMs);
      NeverAcceptedAfterExpiry(after, key, deadline, calls[1..], expiryMs);
      forall i | 0 <= i < |calls| && Concerns(calls[i], key) && calls[i].now > deadline
        ensures Refused(Run(s, calls, expiryMs).result[i])
      {
        if i > 0 {
          RunTail(s, calls, expiryMs, i);
          assert calls[1..][i - 1] == calls[i];
        }
      }
    }
  }

  /** Every call touches only its own normalised key: the entries of all other
      addresses are as they were. */
  lemma OtherKeysUntouched(s: Store, c: Call, expiryMs: int)
    ensures SameExcept(s, Apply(s, c, expiryMs).after, Normalize(c.email))
  {
  }

  /** A sequence of calls none of which names `key` leaves the entry for `key`
      exactly as it was: present with the same code and expiry, or absent. */
  lemma {:induction false} UnconcernedKeyUntouched(s: Store, key: string, calls: seq<Call>, expiryMs: int)
    requires forall i :: 0 <= i < |calls| ==> !Concerns(calls[i], key)
    ensures key in Run(s, calls, expiryMs).after <==> key in s
    ensures key in s ==> Run(s, calls, expiryMs).after[key] == s[key]
    decreases |calls|
  {
    if calls != [] {
      var after := Apply(s, calls[0], expiryMs).after;
      OtherKeysUntouched(s, calls[0], expiryMs);
      assert forall i :: 0 <= i < |calls[1..]| ==> calls[1..][i] == calls[i + 1];
      UnconcernedKeyUntouched(after, key, calls[1..], expiryMs);
    }
  }

  lemma LowerCaseExample()
    ensures ToLower("A@B.com") == "a@b.com"
    ensures ToLower(" A@b.COM\t") == " a@b.com\t"
  {
    var lowered := ToLower("A@B.com");
    forall i | 0 <= i < 7 ensures lowered[i] == "a@b.com"[i] {
      assert lowered[i] == LowerChar("A@B.com"[i]);
    }
    var padded := ToLower(" A@b.COM\t");
    forall i | 0 <= i < 9 ensures padded[i] == " a@b.com\t"[i] {
      assert padded[i] == LowerChar(" A@b.COM\t"[i]);
    }
  }

  /** Differently spelt addresses that normalise alike share one entry. */
  lemma NormalizationExample()
    ensures Normalize("A@B.com") == "a@b.com"
    ensures Normalize(" A@b.COM\t") == "a@b.com"
  {
    LowerCaseExample();
    TrimOfTrimmed("a@b.com");
    assert " a@b.com\t" == [' '] + "a@b.com" + ['\t'];
    TrimPadded(' ', "a@b.com", '\t');
  }
}
