/**
 * The email-capture endpoint: shape validation of the submitted address,
 * the duplicate check against the stored list, and the append-and-count step.
 * The key-value store behind it is modelled as one list of emails and one
 * counter for the configured site.
 */
module Signup {
  import opened Wrappers

  // ---------------------------------------------------------------------
  // The email pattern  ^[^\s@]+@[^\s@]+\.[^\s@]+$
  // ---------------------------------------------------------------------

  /** A code point matched by `\s` in an ECMAScript regular expression:
      WhiteSpace (tab, vertical tab, form feed, space, no-break space,
      byte order mark and the Zs category) or LineTerminator. */
  predicate IsRegexSpace(c: char)
  {
    var n := c as int;
    n == 0x09 || n == 0x0A || n == 0x0B || n == 0x0C || n == 0x0D
    || n == 0x20 || n == 0xA0 || n == 0x1680 || (0x2000 <= n <= 0x200A)
    || n == 0x2028 || n == 0x2029 || n == 0x202F || n == 0x205F
    || n == 0x3000 || n == 0xFEFF
  }

  /** The character class `[^\s@]`. */
  predicate IsPlain(c: char)
  {
    c != '@' && !IsRegexSpace(c)
  }

  /** `[^\s@]+`: a non-empty run of plain characters. */
  predicate IsPlainRun(t: string)
  {
    |t| > 0 && forall k :: 0 <= k < |t| ==> IsPlain(t[k])
  }

  /** The anchored pattern read literally: the whole string is three plain
      runs, the first two joined by the '@' at index i, the last two by the
      '.' at index j. */
  ghost predicate MatchesEmailPattern(s: string): (m: bool)
    ensures m ==> 5 <= |s|
  {
    exists i, j :: 0 <= i < j < |s| && s[i] == '@' && s[j] == '.'
      && IsPlainRun(s[..i]) && IsPlainRun(s[i + 1..j]) && IsPlainRun(s[j + 1..])
  }

  /** Index of the first occurrence of c in s, or |s| when there is none. */
  function IndexOf(s: string, c: char): (k: nat)
    ensures k <= |s|
    ensures k < |s| ==> s[k] == c
    ensures forall m :: 0 <= m < k ==> s[m] != c
  {
    if s == [] || s[0] == c then 0 else 1 + IndexOf(s[1..], c)
  }

  /** The part after the '@': a plain run with a '.' that is neither its
      first nor its last character. */
  predicate IsDomain(d: string)
  {
    IsPlainRun(d) && exists j :: 0 < j < |d| - 1 && d[j] == '.'
  }

  /** The validator: split at the first '@', then check both sides. */
  predicate IsValidEmail(s: string): (ok: bool)
    ensures ok ==> '@' in s && '.' in s
    ensures ok ==> forall k :: 0 <= k < |s| ==> !IsRegexSpace(s[k])
  {
    var at := IndexOf(s, '@');
    var ok := at < |s| && IsPlainRun(s[..at]) && IsDomain(s[at + 1..]);
    assert ok ==> forall k :: 0 <= k < |s| ==> !IsRegexSpace(s[k]) by {
      if ok {
        forall k | 0 <= k < |s| ensures !IsRegexSpace(s[k]) {
          if k < at {
            assert s[k] == s[..at][k];
          } else if k > at {
            assert s[k] == s[at + 1..][k - at - 1];
          }
        }
      }
    }
    assert ok ==> '.' in s by {
      if ok {
        var d := s[at + 1..];
        var j :| 0 < j < |d| - 1 && d[j] == '.';
        assert s[at + 1 + j] == '.';
      }
    }
    ok
  }

  /** Every string the validator accepts matches the regular expression. */
  lemma ValidEmailIsMatch(s: string)
    requires IsValidEmail(s)
    ensures MatchesEmailPattern(s)
  {
    var at := IndexOf(s, '@');
    var d := s[at + 1..];
    var jd :| 0 < jd < |d| - 1 && d[jd] == '.';
    var j := at + 1 + jd;
    assert s[at + 1..j] == d[..jd];
    assert s[j + 1..] == d[jd + 1..];
    assert IsPlainRun(s[at + 1..j]);
    assert IsPlainRun(s[j + 1..]);
  }

  /** The domain side of a match is a plain run with an inner '.'. */
  lemma MatchDomain(s: string, i: int, j: int)
    requires 0 <= i < j < |s| && s[j] == '.'
    requires IsPlainRun(s[i + 1..j]) && IsPlainRun(s[j + 1..])
    ensures IsDomain(s[i + 1..])
  {
    var d := s[i + 1..];
    forall k | 0 <= k < |d|
      ensures IsPlain(d[k])
    {
      if k < j - i - 1 {
        assert d[k] == s[i + 1..j][k];
      } else if k > j - i - 1 {
        assert d[k] == s[j + 1..][k - (j - i)];
      }
    }
    assert d[j - i - 1] == '.';
  }

  /** Every string the regular expression matches is accepted by the validator. */
  lemma MatchIsValidEmail(s: string)
    requires MatchesEmailPattern(s)
    ensures IsValidEmail(s)
  {
    var i, j :| 0 <= i < j < |s| && s[i] == '@' && s[j] == '.'
      && IsPlainRun(s[..i]) && IsPlainRun(s[i + 1..j]) && IsPlainRun(s[j + 1..]);
    var at := IndexOf(s, '@');
    assert forall m :: 0 <= m < i ==> s[m] == s[..i][m];
    assert at == i;
    MatchDomain(s, i, j);
  }

  /** The validator accepts exactly the strings the regular expression matches. */
  lemma ValidEmailMatchesPattern(s: string)
    ensures IsValidEmail(s) <==> MatchesEmailPattern(s)
  {
    if IsValidEmail(s) {
      ValidEmailIsMatch(s);
    }
    if MatchesEmailPattern(s) {
      MatchIsValidEmail(s);
    }
  }

  /** Every accepted address contains exactly one '@'. */
  lemma ValidEmailHasOneAt(s: string)
    requires IsValidEmail(s)
    ensures multiset(s)['@'] == 1
  {
    var at := IndexOf(s, '@');
    assert s == s[..at] + [s[at]] + s[at + 1..];
    assert '@' !in s[..at] by {
      forall k | 0 <= k < at ensures s[..at][k] != '@' { assert IsPlain(s[..at][k]); }
    }
    var d := s[at + 1..];
    assert '@' !in d by {
      forall k | 0 <= k < |d| ensures d[k] != '@' { assert IsPlain(d[k]); }
    }
    calc {
      multiset(s)['@'];
      (multiset(s[..at]) + multiset([s[at]]) + multiset(d))['@'];
      multiset(s[..at])['@'] + multiset([s[at]])['@'] + multiset(d)['@'];
    }
  }

  // ---------------------------------------------------------------------
  // Requests, outcomes and the store
  // ---------------------------------------------------------------------

  /** The request body: `MalformedBody` when `request.json()` or the
      destructuring of its result throws; otherwise the `email` field. */
  datatype Request = MalformedBody | Body(email: Option<string>)

  datatype Outcome = Success | InvalidEmail | AlreadyRegistered | InternalError

  function StatusCode(o: Outcome): (code: int)
    ensures code == 200 <==> o == Success
    ensures code == 500 <==> o == InternalError
    ensures code == 400 <==> o == InvalidEmail || o == AlreadyRegistered
  {
    match o
    case Success => 200
    case InvalidEmail => 400
    case AlreadyRegistered => 400
    case InternalError => 500
  }

  function ErrorMessage(o: Outcome): (message: Option<string>)
    ensures message.None? <==> o == Success
  {
    match o
    case Success => None
    case InvalidEmail => Some("Please enter a valid email address")
    case AlreadyRegistered => Some("This email is already registered")
    case InternalError => Some("Internal server error")
  }

  /** Each outcome is told apart by the response the client receives. */
  lemma ResponsesDistinguishOutcomes(o1: Outcome, o2: Outcome)
    requires (StatusCode(o1), ErrorMessage(o1)) == (StatusCode(o2), ErrorMessage(o2))
    ensures o1 == o2
  {
  }

  /** The persisted pair of keys for one site: the list under
      `email_signups:<site>` and the counter under `email_signups_count:<site>`. */
  datatype Store = Store(emails: seq<string>, count: nat)

  /** One request handled from start to finish, as a state transition. */
  function Step(st: Store, req: Request): (r: (Outcome, Store))
    ensures r.0 != Success ==> r.1 == st
    ensures r.1.count - |r.1.emails| == st.count - |st.emails|
    ensures st.emails <= r.1.emails
  {
    if req.MalformedBody? then (InternalError, st)
    else if req.email.None? || req.email.value == "" || !IsValidEmail(req.email.value) then (InvalidEmail, st)
    else if req.email.value in st.emails then (AlreadyRegistered, st)
    else (Success, Store(st.emails + [req.email.value], st.count + 1))
  }

  predicate NoDuplicates(s: seq<string>)
  {
    forall i, j :: 0 <= i < j < |s| ==> s[i] != s[j]
  }

  /** A request succeeds exactly when it carries a well-shaped address not yet
      in the list; the address is then appended and the counter goes up by one. */
  lemma StepSucceedsIff(st: Store, req: Request)
    ensures Step(st, req).0 == Success
        <==> req.Body? && req.email.Some? && MatchesEmailPattern(req.email.value)
             && req.email.value !in st.emails
    ensures Step(st, req).0 == Success
        ==> Step(st, req).1 == Store(st.emails + [req.email.value], st.count + 1)
  {
    if req.Body? && req.email.Some? {
      ValidEmailMatchesPattern(req.email.value);
      ValidEmailMatchesPattern("");
    }
  }

  /** Every outcome other than success leaves the list and the counter as they were. */
  lemma FailedStepChangesNothing(st: Store, req: Request)
    requires Step(st, req).0 != Success
    ensures Step(st, req).1 == st
  {
  }

  /** Validation happens before the store is consulted: whether a request is
      rejected as invalid does not depend on the store. */
  lemma InvalidEmailIndependentOfStore(st1: Store, st2: Store, req: Request)
    ensures Step(st1, req).0 == InvalidEmail <==> Step(st2, req).0 == InvalidEmail
  {
  }

  /** A request whose body does not parse is an internal error and changes nothing. */
  lemma MalformedBodyIsInternalError(st: Store)
    ensures Step(st, MalformedBody) == (InternalError, st)
  {
  }

  /** A missing, empty or ill-shaped address is refused as invalid, whatever
      the list holds, and nothing changes. */
  lemma InvalidEmailRefused(st: Store, req: Request)
    requires req.Body? && (req.email.None? || !MatchesEmailPattern(req.email.value))
    ensures Step(st, req) == (InvalidEmail, st)
  {
    if req.email.Some? {
      ValidEmailMatchesPattern(req.email.value);
    }
  }

  /** A request is refused as a duplicate exactly when it carries a
      well-shaped address already in the list. */
  lemma AlreadyRegisteredIff(st: Store, req: Request)
    ensures Step(st, req).0 == AlreadyRegistered
        <==> req.Body? && req.email.Some? && MatchesEmailPattern(req.email.value)
             && req.email.value in st.emails
  {
    if req.Body? && req.email.Some? {
      ValidEmailMatchesPattern(req.email.value);
      ValidEmailMatchesPattern("");
    }
  }

  /** An address already in the list is refused and nothing changes. */
  lemma DuplicateRefused(st: Store, email: string)
    requires IsValidEmail(email) && email in st.emails
    ensures Step(st, Body(Some(email))) == (AlreadyRegistered, st)
  {
  }

  /** Registering the same new address twice in a row: success, then
      already-registered, and the list grows by exactly one. */
  lemma RegisterTwice(st: Store, email: string)
    requires IsValidEmail(email) && email !in st.emails
    ensures var (o1, st1) := Step(st, Body(Some(email)));
            var (o2, st2) := Step(st1, Body(Some(email)));
            o1 == Success && o2 == AlreadyRegistered
            && |st2.emails| == |st.emails| + 1 && st2.count == st.count + 1
  {
  }

  /** A list without duplicates keeps having none. */
  lemma StepKeepsNoDuplicates(st: Store, req: Request)
    requires NoDuplicates(st.emails)
    ensures NoDuplicates(Step(st, req).1.emails)
  {
    var (o, st') := Step(st, req);
    if o == Success {
      var e := req.email.value;
      forall i, j | 0 <= i < j < |st'.emails|
        ensures st'.emails[i] != st'.emails[j]
      {
        if j == |st.emails| {
          assert st'.emails[i] == st.emails[i];
        }
      }
    }
  }

  /** The counter and the list length move together, so their difference is kept. */
  lemma StepKeepsDrift(st: Store, req: Request)
    ensures Step(st, req).1.count - |Step(st, req).1.emails| == st.count - |st.emails|
  {
  }

  /** Every address in the list is one the validator accepts. */
  predicate AllValid(s: seq<string>)
  {
    forall k :: 0 <= k < |s| ==> IsValidEmail(s[k])
  }

  /** Requests handled one after another. */
  function Replay(st: Store, reqs: seq<Request>): Store
    decreases |reqs|
  {
    if reqs == [] then st else Replay(Step(st, reqs[0]).1, reqs[1..])
  }

  /** Over any sequence of requests the list only grows at its end, stays
      free of duplicates and of invalid addresses, and keeps the difference
      between counter and length. */
  lemma {:induction false} ReplayKeepsInvariants(st: Store, reqs: seq<Request>)
    requires NoDuplicates(st.emails) && AllValid(st.emails)
    decreases |reqs|
    ensures var st' := Replay(st, reqs);
            NoDuplicates(st'.emails) && AllValid(st'.emails)
            && st'.count - |st'.emails| == st.count - |st.emails|
            && st.emails <= st'.emails
  {
    if reqs != [] {
      var next := Step(st, reqs[0]).1;
      StepKeepsNoDuplicates(st, reqs[0]);
      assert AllValid(next.emails);
      ReplayKeepsInvariants(next, reqs[1..]);
    }
  }

  /** Starting from an empty store, the counter always equals the number of
      stored addresses. */
  lemma ReplayFromEmptyCountsList(reqs: seq<Request>)
    ensures Replay(Store([], 0), reqs).count == |Replay(Store([], 0), reqs).emails|
  {
    ReplayKeepsInvariants(Store([], 0), reqs);
  }

  // ---------------------------------------------------------------------
  // The handler over the store it mutates
  // ---------------------------------------------------------------------

  /** The list and counter of one site, updated in place by `Register`. */
  class SignupList {
    var emails: seq<string>
    var count: nat

    constructor ()
      ensures emails == [] && count == 0
    {
      emails := [];
      count := 0;
    }

    function State(): Store
      reads this
    {
      Store(emails, count)
    }

    /** The POST handler: validate, read the list, refuse a duplicate,
        otherwise append and increment. */
    method Register(req: Request) returns (outcome: Outcome)
      modifies this
      ensures (outcome, State()) == Step(old(State()), req)
      ensures outcome == Success ==> emails == old(emails) + [req.email.value] && count == old(count) + 1
      ensures outcome != Success ==> emails == old(emails) && count == old(count)
      ensures NoDuplicates(old(emails)) ==> NoDuplicates(emails)
    {
      if req.MalformedBody? {
        return InternalError;
      }
      var email := req.email;
      if email.None? || email.value == "" || !IsValidEmail(email.value) {
        return InvalidEmail;
      }
      var existing := emails;
      if email.value in existing {
        return AlreadyRegistered;
      }
      if NoDuplicates(emails) {
        StepKeepsNoDuplicates(State(), req);
      }
      emails := emails + [email.value];
      count := count + 1;
      return Success;
    }
  }
}
