/**
 * The browser-side user registry (frontend/src/context/AuthContext.jsx):
 * a list of registered users and the user currently signed in, with
 * register, login, logout and the per-user review statistics.
 * Persistence to localStorage is modelled only as what a reload restores;
 * `Date.now()` and the ISO timestamp of a registration are parameters.
 */
module Auth {
  import opened Wrappers
  import opened ReviewTypes
  import JsNumber

  /**
   * Per-user statistics.  `avgScore` is a JavaScript number: `None` stands
   * for `NaN`, which `Math.round` produces once a review without a score
   * has been counted.
   */
  datatype Stats = Stats(totalReviews: nat, avgScore: Option<int>, bugsFound: nat, codeImproved: nat)

  datatype User = User(id: int, name: string, email: string, password: string, createdAt: string, stats: Stats)

  /** A registration as the form submits it, with the instant it happens. */
  datatype Registration = Registration(name: string, email: string, password: string, now: int, createdAt: string)

  const ZeroStats: Stats := Stats(0, Some(0), 0, 0)

  const ErrEmailTaken: string := "User already exists with this email"
  const ErrBadLogin: string := "Invalid email or password"

  /** The record a successful registration creates: its id is `Date.now()`. */
  function NewUser(reg: Registration): User
  {
    User(reg.now, reg.name, reg.email, reg.password, reg.createdAt, ZeroStats)
  }

  /** `users.find(u => u.email === email)` finds something. */
  predicate EmailTaken(users: seq<User>, email: string)
  {
    exists i :: 0 <= i < |users| && users[i].email == email
  }

  predicate UniqueEmails(users: seq<User>)
  {
    forall i, j :: 0 <= i < j < |users| ==> users[i].email != users[j].email
  }

  predicate UniqueIds(users: seq<User>)
  {
    forall i, j :: 0 <= i < j < |users| ==> users[i].id != users[j].id
  }

  predicate Matches(u: User, email: string, password: string)
  {
    u.email == email && u.password == password
  }

  /** The list after `register`: unchanged when the email is taken, else one user longer. */
  function Registered(users: seq<User>, reg: Registration): (r: Result<seq<User>, string>)
  {
    if EmailTaken(users, reg.email) then Failure(ErrEmailTaken) else Success(users + [NewUser(reg)])
  }

  /** A registration keeps emails unique, whether it succeeds or not. */
  lemma RegisteredKeepsUnique(users: seq<User>, reg: Registration)
    requires UniqueEmails(users)
    ensures Registered(users, reg).Success? <==> !EmailTaken(users, reg.email)
    ensures Registered(users, reg).Success? ==> UniqueEmails(Registered(users, reg).value)
  {
    if !EmailTaken(users, reg.email) {
      var r := users + [NewUser(reg)];
      forall i, j | 0 <= i < j < |r| ensures r[i].email != r[j].email {
        if j == |users| {
          assert r[i] == users[i];
        } else {
          assert r[i] == users[i] && r[j] == users[j];
        }
      }
    }
  }

  /** The list after a series of registrations, each failing one skipped. */
  function RegisterAll(users: seq<User>, regs: seq<Registration>): seq<User>
    decreases |regs|
  {
    if regs == [] then users
    else
      match Registered(users, regs[0])
      case Success(next) => RegisterAll(next, regs[1..])
      case Failure(_) => RegisterAll(users, regs[1..])
  }

  /** Emails stay unique under any sequence of registrations. */
  lemma {:induction false} RegisterAllUnique(users: seq<User>, regs: seq<Registration>)
    requires UniqueEmails(users)
    ensures UniqueEmails(RegisterAll(users, regs))
    decreases |regs|
  {
    if regs != [] {
      RegisteredKeepsUnique(users, regs[0]);
      match Registered(users, regs[0])
      case Success(next) => RegisterAllUnique(next, regs[1..]);
      case Failure(_) => RegisterAllUnique(users, regs[1..]);
    }
  }

  /**
   * `users.find(u => u.email === email && u.password === password)`: the
   * index of the first user whose email and password both match.
   */
  function FindLogin(users: seq<User>, email: string, password: string): (r: Option<nat>)
    ensures r.Some? ==> r.value < |users| && Matches(users[r.value], email, password)
    ensures r.Some? ==> forall j :: 0 <= j < r.value ==> !Matches(users[j], email, password)
    ensures r.None? <==> forall j :: 0 <= j < |users| ==> !Matches(users[j], email, password)
  {
    if users == [] then None
    else if Matches(users[0], email, password) then Some(0)
    else
      match FindLogin(users[1..], email, password)
      case None => None
      case Some(k) => Some(k + 1)
  }

  /** `reviewData.bugs?.length || 0`. */
  function BugCount(review: Review): nat
  {
    if review.bugs.Some? then |review.bugs.value| else 0
  }

  /** `reviewData.improvedCode ? 1 : 0`: a non-empty string is truthy. */
  function ImprovedCount(review: Review): nat
  {
    if review.improvedCode != "" then 1 else 0
  }

  /**
   * The stats after one review.  The new average is
   * `Math.round((avg * n + score) / (n + 1))`; a NaN average or a missing
   * score (`undefined` in the arithmetic) yields NaN.
   */
  function NextStats(s: Stats, review: Review): Stats
  {
    var avg :=
      if s.avgScore.None? || review.score.None? then None
      else Some(JsNumber.RoundQuotient(s.avgScore.value * s.totalReviews + review.score.value, s.totalReviews + 1));
    Stats(s.totalReviews + 1, avg, s.bugsFound + BugCount(review), s.codeImproved + ImprovedCount(review))
  }

  /** `{...user, stats: …}`: every field but the stats is kept. */
  function WithReview(u: User, review: Review): User
  {
    u.(stats := NextStats(u.stats, review))
  }

  /** The stats after a series of reviews, in order. */
  function StatsAfter(s: Stats, reviews: seq<Review>): Stats
    decreases |reviews|
  {
    if reviews == [] then s else StatsAfter(NextStats(s, reviews[0]), reviews[1..])
  }

  function SumBugs(reviews: seq<Review>): nat
  {
    if reviews == [] then 0 else BugCount(reviews[0]) + SumBugs(reviews[1..])
  }

  function SumImproved(reviews: seq<Review>): nat
  {
    if reviews == [] then 0 else ImprovedCount(reviews[0]) + SumImproved(reviews[1..])
  }

  predicate AllScored(reviews: seq<Review>)
  {
    forall i :: 0 <= i < |reviews| ==> reviews[i].score.Some?
  }

  /**
   * The counters are exact totals: after any series of reviews the count
   * grows by their number, the bug count by their bugs and the improved
   * count by the reviews with improved code.
   */
  lemma {:induction false} StatsAccumulate(s: Stats, reviews: seq<Review>)
    ensures StatsAfter(s, reviews).totalReviews == s.totalReviews + |reviews|
    ensures StatsAfter(s, reviews).bugsFound == s.bugsFound + SumBugs(reviews)
    ensures StatsAfter(s, reviews).codeImproved == s.codeImproved + SumImproved(reviews)
    decreases |reviews|
  {
    if reviews != [] {
      StatsAccumulate(NextStats(s, reviews[0]), reviews[1..]);
    }
  }

  /** The average is a number exactly when it was one and every review had a score. */
  lemma {:induction false} AverageDefinedIff(s: Stats, reviews: seq<Review>)
    ensures StatsAfter(s, reviews).avgScore.Some? <==> s.avgScore.Some? && AllScored(reviews)
    decreases |reviews|
  {
    if reviews != [] {
      AverageDefinedIff(NextStats(s, reviews[0]), reviews[1..]);
      assert AllScored(reviews) <==> reviews[0].score.Some? && AllScored(reviews[1..]) by {
        if reviews[0].score.Some? && AllScored(reviews[1..]) {
          forall i | 0 <= i < |reviews| ensures reviews[i].score.Some? {
            if i > 0 {
              assert reviews[i] == reviews[1..][i - 1];
            }
          }
        }
      }
    }
  }

  /** The first review's score becomes the average of a fresh account. */
  lemma FirstReviewAverage(review: Review)
    requires review.score.Some?
    ensures NextStats(ZeroStats, review).avgScore == review.score
  {
  }

  /** The rounded running average stays within any range holding the old average and the new score. */
  lemma AverageWithin(s: Stats, review: Review, lo: int, hi: int)
    requires s.avgScore.Some? && lo <= s.avgScore.value <= hi
    requires review.score.Some? && lo <= review.score.value <= hi
    ensures NextStats(s, review).avgScore.Some?
    ensures lo <= NextStats(s, review).avgScore.value <= hi
  {
    var a, n, x := s.avgScore.value, s.totalReviews, review.score.value;
    WeightedSumWithin(a, n, x, lo, hi);
    JsNumber.RoundQuotientWithin(a * n + x, n + 1, lo, hi);
  }

  /** `avg * n + score` lies between `(n + 1) * lo` and `(n + 1) * hi`. */
  lemma WeightedSumWithin(a: int, n: nat, x: int, lo: int, hi: int)
    requires lo <= a <= hi && lo <= x <= hi
    ensures (n + 1) * lo <= a * n + x <= (n + 1) * hi
  {
    JsNumber.MulMonotone(n, lo, a);
    JsNumber.MulMonotone(n, a, hi);
    assert n * lo <= a * n <= n * hi;
    assert (n + 1) * lo == n * lo + lo && (n + 1) * hi == n * hi + hi;
  }

  /** Scores all in `lo..hi` keep the average in `lo..hi` over any series of reviews. */
  lemma {:induction false} AverageStaysWithin(s: Stats, reviews: seq<Review>, lo: int, hi: int)
    requires s.avgScore.Some? && lo <= s.avgScore.value <= hi
    requires forall i :: 0 <= i < |reviews| ==> reviews[i].score.Some? && lo <= reviews[i].score.value <= hi
    ensures StatsAfter(s, reviews).avgScore.Some?
    ensures lo <= StatsAfter(s, reviews).avgScore.value <= hi
    decreases |reviews|
  {
    if reviews != [] {
      AverageWithin(s, reviews[0], lo, hi);
      var rest := reviews[1..];
      assert forall i :: 0 <= i < |rest| ==> rest[i] == reviews[i + 1];
      AverageStaysWithin(NextStats(s, reviews[0]), rest, lo, hi);
    }
  }

  /** A review scoring exactly the current average leaves the average where it is. */
  lemma AverageSteady(s: Stats, review: Review)
    requires s.avgScore.Some? && review.score == s.avgScore
    ensures NextStats(s, review).avgScore == s.avgScore
  {
    AverageWithin(s, review, s.avgScore.value, s.avgScore.value);
  }

  /** `users.map(u => u.id === id ? updated : u)`. */
  /**
   * The stats as a reload restores them: `JSON.stringify` saves a NaN
   * average as `null`, and `null` counts as 0 in the next average, so a
   * NaN average comes back as 0 and a number comes back unchanged.
   */
  function ReloadStats(s: Stats): (r: Stats)
    ensures r.avgScore.Some?
    ensures s.avgScore.Some? ==> r == s
    ensures r.totalReviews == s.totalReviews && r.bugsFound == s.bugsFound && r.codeImproved == s.codeImproved
  {
    if s.avgScore.None? then s.(avgScore := Some(0)) else s
  }

  /**
   * Within a session a NaN average sticks, but a reload clears it: the
   * next scored review then averages as if the old average had been 0.
   */
  lemma ReloadRecovers(s: Stats, review: Review)
    requires s.avgScore.None? && review.score.Some?
    ensures NextStats(s, review).avgScore.None?
    ensures NextStats(ReloadStats(s), review).avgScore
            == Some(JsNumber.RoundQuotient(review.score.value, s.totalReviews + 1))
  {
    assert 0 * s.totalReviews + review.score.value == review.score.value;
  }

  /** A user record as a reload restores it: only a NaN average changes. */
  function Reloaded(u: User): (r: User)
    ensures r.stats.avgScore.Some? && r.(stats := u.stats) == u
  {
    u.(stats := ReloadStats(u.stats))
  }

  /** The stored users list as a reload restores it, entry by entry. */
  function ReloadAll(users: seq<User>): (r: seq<User>)
    ensures |r| == |users|
    ensures forall i :: 0 <= i < |users| ==> r[i] == Reloaded(users[i])
  {
    seq(|users|, i requires 0 <= i < |users| => Reloaded(users[i]))
  }

  function ReplaceById(users: seq<User>, id: int, updated: User): (r: seq<User>)
    ensures |r| == |users|
    decreases |users|
  {
    if users == [] then []
    else [if users[0].id == id then updated else users[0]] + ReplaceById(users[1..], id, updated)
  }

  /** Entry by entry: the entries with that id become `updated`, every other entry stays. */
  lemma {:induction false} ReplaceByIdAt(users: seq<User>, id: int, updated: User)
    ensures forall i :: 0 <= i < |users| ==>
      ReplaceById(users, id, updated)[i] == if users[i].id == id then updated else users[i]
    decreases |users|
  {
    if users != [] {
      ReplaceByIdAt(users[1..], id, updated);
      var r := ReplaceById(users, id, updated);
      forall i | 0 <= i < |users|
        ensures r[i] == if users[i].id == id then updated else users[i]
      {
        if i > 0 {
          assert r[i] == ReplaceById(users[1..], id, updated)[i - 1];
          assert users[i] == users[1..][i - 1];
        }
      }
    }
  }

  /**
   * Replacing the one entry with `updated`'s id by a record with the same
   * email keeps ids and emails unique, and `updated` is then in the list.
   */
  lemma ReplaceKeepsUnique(users: seq<User>, k: nat, updated: User)
    requires UniqueIds(users) && UniqueEmails(users)
    requires k < |users| && users[k].id == updated.id && users[k].email == updated.email
    ensures UniqueIds(ReplaceById(users, updated.id, updated))
    ensures UniqueEmails(ReplaceById(users, updated.id, updated))
    ensures ReplaceById(users, updated.id, updated)[k] == updated
  {
    ReplaceByIdAt(users, updated.id, updated);
    var r := ReplaceById(users, updated.id, updated);
    forall i | 0 <= i < |users| && i != k ensures users[i].id != updated.id {
      if i < k {
        assert users[i].id != users[k].id;
      } else {
        assert users[k].id != users[i].id;
      }
    }
  }

  /** The users list and the signed-in user of the `AuthProvider`. */
  class AuthStore {
    var users: seq<User>
    var user: Option<User>

    /** The signed-in user is an entry of the list, as every operation leaves it. */
    predicate Valid()
      reads this
    {
      user.Some? ==> user.value in users
    }

    /**
     * The state restored from storage (`[]` and `null` on a first visit).
     * Every NaN average comes back as 0.  The stored user is restored as
     * stored, so it is signed in even when the stored list, which another
     * tab may have written, does not hold it.
     */
    constructor (saved: seq<User>, current: Option<User>)
      ensures users == ReloadAll(saved)
      ensures user == if current.Some? then Some(Reloaded(current.value)) else None
      ensures (current.Some? ==> current.value in saved) ==> Valid()
    {
      users := ReloadAll(saved);
      user := if current.Some? then Some(Reloaded(current.value)) else None;
      if current.Some? && current.value in saved {
        var k :| 0 <= k < |saved| && saved[k] == current.value;
        assert ReloadAll(saved)[k] == Reloaded(current.value);
      }
    }

    /** `register`: a taken email throws and changes nothing; otherwise the new user is appended and signed in. */
    method Register(reg: Registration) returns (r: Result<User, string>)
      modifies this
      ensures r.Success? || old(Valid()) ==> Valid()
      ensures Registered(old(users), reg).Failure? ==>
        r == Failure(ErrEmailTaken) && users == old(users) && user == old(user)
      ensures Registered(old(users), reg).Success? ==>
        r == Success(NewUser(reg)) && users == Registered(old(users), reg).value && user == Some(NewUser(reg))
      ensures old(UniqueEmails(users)) ==> UniqueEmails(users)
      ensures old(UniqueIds(users)) && (forall i :: 0 <= i < |old(users)| ==> old(users)[i].id != reg.now) ==>
        UniqueIds(users)
    {
      if UniqueEmails(users) {
        RegisteredKeepsUnique(users, reg);
      }
      var taken := exists i :: 0 <= i < |users| && users[i].email == reg.email;
      if taken {
        r := Failure(ErrEmailTaken);
        return;
      }
      var u := NewUser(reg);
      users := users + [u];
      user := Some(u);
      r := Success(u);
    }

    /** `login`: signs in the first user matching both email and password, or throws and changes nothing. */
    method Login(email: string, password: string) returns (r: Result<User, string>)
      modifies this
      ensures r.Success? || old(Valid()) ==> Valid()
      ensures users == old(users)
      ensures r.Success? <==> exists i :: 0 <= i < |users| && Matches(users[i], email, password)
      ensures r.Failure? ==> r.error == ErrBadLogin && user == old(user)
      ensures r.Success? ==>
        FindLogin(users, email, password).Some?
        && r.value == users[FindLogin(users, email, password).value] && user == Some(r.value)
    {
      match FindLogin(users, email, password)
      case None =>
        r := Failure(ErrBadLogin);
      case Some(k) =>
        r := Success(users[k]);
        user := Some(users[k]);
    }

    /** `logout`: nobody is signed in; the list is untouched. */
    method Logout()
      modifies this
      ensures Valid()
      ensures user == None && users == old(users)
    {
      user := None;
    }

    /**
     * `updateStats`: without a signed-in user nothing happens; otherwise the
     * signed-in user gets the next stats and every entry with its id is
     * replaced by the updated record.
     */
    method UpdateStats(review: Review)
      modifies this
      ensures old(Valid()) ==> Valid()
      ensures old(user).None? ==> user == old(user) && users == old(users)
      ensures old(user).Some? ==>
        user == Some(WithReview(old(user).value, review))
        && users == ReplaceById(old(users), old(user).value.id, user.value)
      ensures old(Valid() && UniqueIds(users) && UniqueEmails(users)) ==> UniqueIds(users) && UniqueEmails(users)
    {
      if user.None? {
        return;
      }
      var current := user.value;
      var updated := WithReview(current, review);
      ReplaceByIdAt(users, current.id, updated);
      if current in users {
        var k :| 0 <= k < |users| && users[k] == current;
        assert ReplaceById(users, current.id, updated)[k] == updated;
        if UniqueIds(users) && UniqueEmails(users) {
          ReplaceKeepsUnique(users, k, updated);
        }
      }
      user := Some(updated);
      users := ReplaceById(users, current.id, updated);
    }
  }
}
