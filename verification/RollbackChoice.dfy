/** What the choice of the rollback release guarantees, and exactly when it is
    the greatest eligible release in the order of semantic versions. */
module RollbackChoice {
  import opened Wrappers
  import opened Orders
  import opened SemVers
  import opened Releases
  import ProviderNames
  import Strings

  ghost predicate Present(q: RollbackQuery, version: string) {
    exists r :: r in q.rows && r.version == version
  }

  ghost predicate Candidate(q: RollbackQuery, version: string) {
    Present(q, version) && q.Eligible(version)
  }

  function Chosen(q: RollbackQuery): Result<Option<string>, ReleaseError> {
    RollbackRelease(q.rows, q.backend, Some(q.active), q.rolledBack)
  }

  /** The choice fails only on an unparseable version, is none exactly when no
      release is eligible, and otherwise is an eligible release that no other
      outranks under the sort key. */
  lemma ChoiceIsEligible(q: RollbackQuery)
    ensures Chosen(q).Err? <==> Parse(q.active).None? || exists v :: Present(q, v) && q.Unparseable(v)
    ensures Chosen(q) == Ok(None) <==> Chosen(q).Ok? && forall v :: !Candidate(q, v)
    ensures forall v | Chosen(q) == Ok(Some(v)) :: Candidate(q, v) && forall w | Candidate(q, w) :: !Outranks(w, v)
  {
    hide PairsComplete, Parse, Compare, CompareKeys, Filter;
    VersionsMembers(q.rows);
    FilterMembers(q.Eligible, Versions(q.rows));
    FilterMembers(q.Unparseable, Versions(q.rows));
    var bad, eligible := Filter(q.Unparseable, Versions(q.rows)), Filter(q.Eligible, Versions(q.rows));
    if bad != [] {
      assert bad[0] in bad;
    }
    if eligible != [] {
      assert eligible[0] in eligible;
      forall i | 0 <= i < |eligible| ensures Parse(eligible[i]).Some? {
        assert eligible[i] in eligible;
      }
      TopIsGreatest(eligible);
      assert Candidate(q, eligible[0]);
    }
    forall v | Candidate(q, v) ensures v in eligible {
    }
  }

  /** A chosen release is strictly older than the active one, was never rolled
      back from and has no retired row; some row of it is accepted, and each
      Validator with an accepted row of it has an accepted Service and Job. */
  lemma ChoiceIsSafe(q: RollbackQuery, v: string)
    requires Chosen(q) == Ok(Some(v))
    ensures Parse(v).Some? && Parse(q.active).Some? && Precedes(Parse(v).value, Parse(q.active).value)
    ensures v !in q.rolledBack && v != q.active
    ensures exists r :: Holds(q, v, r) && Accepted(r)
    ensures forall r | Holds(q, v, r) :: Truthy(r.validatorId) && !Retired(r) && (Accepted(r) ==>
              HasAccepted(q, v, r.validatorId.value, SERVICE) && HasAccepted(q, v, r.validatorId.value, JOB))
  {
    hide Parse, q.Restorable, Precedes, Compare, RollbackRelease;
    ChoiceIsEligible(q);
    EligibleIsOlder(q, v);
    RestorableIsAccepted(q, v);
  }

  ghost predicate Holds(q: RollbackQuery, v: string, r: Row) {
    r in q.rows && Release(q.backend, v).Has(r)
  }

  /** An accepted row of that release for that Validator and kind. */
  ghost predicate HasAccepted(q: RollbackQuery, v: string, id: string, kind: string) {
    exists r :: Holds(q, v, r) && Accepted(r) && r.validatorId == Some(id) && r.kind == kind
  }

  lemma EligibleIsOlder(q: RollbackQuery, v: string)
    requires q.Eligible(v)
    ensures Parse(v).Some? && Parse(q.active).Some? && Precedes(Parse(v).value, Parse(q.active).value)
  {
    hide Parse, q.Restorable, Precedes, Compare;
    PrintOfParse(v);
    PrintOfParse(q.active);
    CompareIsPrecedence(Parse(v).value, Parse(q.active).value);
  }

  lemma RestorableIsAccepted(q: RollbackQuery, v: string)
    requires q.Restorable(v)
    ensures v !in q.rolledBack && v != q.active
    ensures exists r :: Holds(q, v, r) && Accepted(r)
    ensures forall r | Holds(q, v, r) :: Truthy(r.validatorId) && !Retired(r) && (Accepted(r) ==>
              HasAccepted(q, v, r.validatorId.value, SERVICE) && HasAccepted(q, v, r.validatorId.value, JOB))
  {
    hide Filter, ValidatorIds;
    var group := Filter(Release(q.backend, v).Has, q.rows);
    FilterMembers(Release(q.backend, v).Has, q.rows);
    FilterMembers(Accepted, group);
    var accepted := Filter(Accepted, group);
    ValidatorIdsMembers(accepted);
    assert accepted[0] in accepted;
    forall r | Holds(q, v, r) && Accepted(r)
      ensures HasAccepted(q, v, r.validatorId.value, SERVICE) && HasAccepted(q, v, r.validatorId.value, JOB)
    {
      var id := r.validatorId.value;
      assert r in accepted && id in ValidatorIds(accepted);
      var service :| service in accepted && Route(id, SERVICE).Has(service);
      var job :| job in accepted && Route(id, JOB).Has(job);
    }
  }

  lemma CandidatesParse(q: RollbackQuery)
    ensures forall v | Candidate(q, v) :: Parse(v).Some? && Valid(Parse(v).value)
  {
    forall v | Candidate(q, v) ensures Parse(v).Some? && Valid(Parse(v).value) {
      PrintOfParse(v);
    }
  }

  ghost predicate Greatest(q: RollbackQuery, v: string)
    requires Parse(v).Some?
  {
    forall w | Candidate(q, w) :: Compare(Parse(w).value, Parse(v).value) <= 0
  }

  ghost predicate SameCore(v: string, w: string) {
    Parse(v).Some? && Parse(w).Some? && CompareCore(Parse(v).value, Parse(w).value) == 0
  }

  // ---- the condition on the candidates ---------------------------------------

  /** A candidate whose three numbers no candidate exceeds. */
  ghost predicate TopCore(q: RollbackQuery, u: string) {
    Candidate(q, u) && forall w | Candidate(q, w) :: CompareCore(Parse(w).value, Parse(u).value) <= 0
  }

  ghost predicate IsRelease(u: string) {
    Parse(u).Some? && Parse(u).value.prerelease == []
  }

  /** No candidate of the greatest numbers is above u, in either order. */
  ghost predicate TopInBoth(q: RollbackQuery, u: string) {
    TopCore(q, u) && forall w | TopCore(q, w) ::
      && CompareTuples(Parse(w).value.prerelease, Parse(u).value.prerelease) <= 0
      && ComparePrerelease(Parse(w).value, Parse(u).value) <= 0
  }

  /** The two orders have one greatest element among the candidates of the
      greatest numbers: either these are releases only, or prereleases only and
      one of them is last both as text and in precedence. */
  ghost predicate OrdersAgree(q: RollbackQuery) {
    if exists u :: TopCore(q, u) && IsRelease(u) then forall u | TopCore(q, u) :: IsRelease(u)
    else exists u :: TopInBoth(q, u)
  }

  /** Text order and precedence of the prereleases of equal numbers. */
  lemma SameNumbers(a: SemVer, b: SemVer)
    requires CompareCore(a, b) == 0
    ensures Compare(a, b) == ComparePrerelease(a, b)
    ensures CompareKeys(a, b) == CompareTuples(a.prerelease, b.prerelease)
    ensures CompareCore(b, a) == 0
    ensures a.prerelease == [] ==> (CompareTuples(a.prerelease, b.prerelease) <= 0 && ComparePrerelease(a, b) >= 0)
    ensures a.prerelease == [] && b.prerelease != [] ==>
              CompareTuples(b.prerelease, a.prerelease) > 0 && ComparePrerelease(b, a) < 0
  {
  }

  lemma CoresCompare(a: SemVer, b: SemVer, c: SemVer)
    ensures CompareCore(a, b) < 0 ==> Compare(a, b) < 0 && CompareKeys(a, b) < 0
    ensures CompareCore(a, b) > 0 ==> Compare(a, b) > 0 && CompareKeys(a, b) > 0
    ensures CompareCore(a, b) == -CompareCore(b, a)
    ensures CompareCore(a, b) <= 0 && CompareCore(b, c) <= 0 ==> CompareCore(a, c) <= 0
  {
  }

  /** The choice is of the greatest numbers. */
  lemma ChoiceIsTopCore(q: RollbackQuery, v: string)
    requires Chosen(q) == Ok(Some(v))
    ensures TopCore(q, v) && forall w | TopCore(q, w) :: SameCore(w, v)
    ensures forall w | TopCore(q, w) :: CompareTuples(Parse(w).value.prerelease, Parse(v).value.prerelease) <= 0
  {
    hide Parse, q.Restorable, RollbackRelease, CompareTuples, CompareCore, CompareKeys, Compare;
    ChoiceIsEligible(q);
    CandidatesParse(q);
    forall w | Candidate(q, w)
      ensures CompareCore(Parse(w).value, Parse(v).value) <= 0
    {
      CoresCompare(Parse(w).value, Parse(v).value, Parse(v).value);
      assert !Outranks(w, v);
    }
    forall w | TopCore(q, w)
      ensures SameCore(w, v) && CompareTuples(Parse(w).value.prerelease, Parse(v).value.prerelease) <= 0
    {
      CoresCompare(Parse(w).value, Parse(v).value, Parse(v).value);
      SameNumbers(Parse(w).value, Parse(v).value);
      assert !Outranks(w, v);
    }
  }

  /** It is the greatest exactly when no candidate of those numbers precedes it. */
  lemma GreatestAmongTop(q: RollbackQuery, v: string)
    requires Chosen(q) == Ok(Some(v))
    ensures Parse(v).Some?
    ensures Greatest(q, v) <==> forall w | TopCore(q, w) :: ComparePrerelease(Parse(w).value, Parse(v).value) <= 0
  {
    hide Parse, q.Restorable, RollbackRelease, CompareTuples, CompareCore, Compare, ComparePrerelease;
    ChoiceIsEligible(q);
    CandidatesParse(q);
    ChoiceIsTopCore(q, v);
    forall w | TopCore(q, w)
      ensures Compare(Parse(w).value, Parse(v).value) == ComparePrerelease(Parse(w).value, Parse(v).value)
    {
      SameNumbers(Parse(w).value, Parse(v).value);
    }
    forall w | Candidate(q, w) && !TopCore(q, w)
      ensures Compare(Parse(w).value, Parse(v).value) < 0
    {
      BelowTop(q, v, w);
    }
  }

  lemma BelowTop(q: RollbackQuery, v: string, w: string)
    requires TopCore(q, v) && Candidate(q, w) && !TopCore(q, w)
    ensures Compare(Parse(w).value, Parse(v).value) < 0
  {
    hide Parse, q.Restorable, CompareCore, Compare;
    CandidatesParse(q);
    var u :| Candidate(q, u) && CompareCore(Parse(u).value, Parse(w).value) > 0;
    CoresCompare(Parse(u).value, Parse(v).value, Parse(w).value);
    CoresCompare(Parse(v).value, Parse(w).value, Parse(w).value);
    CoresCompare(Parse(w).value, Parse(v).value, Parse(w).value);
  }

  /** Two prereleases that neither order puts below the other are one. */
  lemma TextAntisymmetric(p: seq<string>, r: seq<string>)
    requires CompareTuples(p, r) <= 0 && CompareTuples(r, p) <= 0
    ensures p == r
  {
    hide CompareTuples;
    TuplesTotal();
    TotalMeans(CompareTuples, p, r, p);
  }

  /** For every database: the chosen release is the SemVer-greatest eligible one
      exactly when the two orders agree on the eligible releases of the greatest
      numbers. */
  lemma GreatestExactlyWhen(q: RollbackQuery, v: string)
    requires Chosen(q) == Ok(Some(v))
    ensures Parse(v).Some? && (Greatest(q, v) <==> OrdersAgree(q))
  {
    hide Parse, Candidate, RollbackRelease, CompareTuples, CompareCore, Compare, ComparePrerelease, TopCore, Greatest;
    GreatestAmongTop(q, v);
    ChoiceIsTopCore(q, v);
    forall w | TopCore(q, w)
      ensures SameCore(w, v)
      ensures IsRelease(w) && !IsRelease(v) ==> ComparePrerelease(Parse(w).value, Parse(v).value) > 0
      ensures IsRelease(w) && IsRelease(v) ==> ComparePrerelease(Parse(w).value, Parse(v).value) <= 0
      ensures IsRelease(v) ==> IsRelease(w)
    {
      SameNumbers(Parse(w).value, Parse(v).value);
      SameNumbers(Parse(v).value, Parse(w).value);
      ReleasesAreLevel(Parse(w).value, Parse(v).value);
    }
    if u :| TopInBoth(q, u) {
      TextAntisymmetric(Parse(u).value.prerelease, Parse(v).value.prerelease);
      PrereleaseDecides(Parse(u).value, Parse(v).value);
    }
    if Greatest(q, v) {
      assert TopInBoth(q, v);
    }
  }

  lemma ReleasesAreLevel(a: SemVer, b: SemVer)
    ensures a.prerelease == [] && b.prerelease == [] ==> ComparePrerelease(a, b) == 0
    ensures a.prerelease == [] && b.prerelease != [] ==> ComparePrerelease(a, b) > 0
  {
  }

  lemma PrereleaseDecides(a: SemVer, b: SemVer)
    requires a.prerelease == b.prerelease
    ensures forall c: SemVer :: ComparePrerelease(c, a) == ComparePrerelease(c, b)
  {
  }

  /** In particular it is the greatest when no eligible release has a prerelease. */
  lemma GreatestWithoutPrereleases(q: RollbackQuery, v: string)
    requires Chosen(q) == Ok(Some(v))
    requires forall w | Candidate(q, w) :: Parse(w).value.prerelease == []
    ensures Parse(v).Some? && Greatest(q, v)
  {
    hide Parse, RollbackRelease, Candidate, CompareTuples, CompareCore, Compare, ComparePrerelease, Greatest;
    ChoiceIsTopCore(q, v);
    GreatestAmongTop(q, v);
    forall w | TopCore(q, w)
      ensures ComparePrerelease(Parse(w).value, Parse(v).value) <= 0
    {
      ReleasesAreLevel(Parse(w).value, Parse(v).value);
    }
  }

  /** The key also misorders numeric identifiers: as text 9 comes after 10. */
  lemma KeyMisordersNumbers(m: nat, n: nat, p: nat)
    ensures var nine, ten := SemVer(m, n, p, ["rc", "9"]), SemVer(m, n, p, ["rc", "10"]);
            CompareKeys(nine, ten) > 0 && Compare(nine, ten) < 0
  {
    TextOrder();
    var a, b := ["rc", "9"], ["rc", "10"];
    assert a[1..] == ["9"] && b[1..] == ["10"];
    assert CompareTuples(a, b) == CompareTuples(a[1..], b[1..]);
    assert Lex(CompareIdentifiers, a, b) == Lex(CompareIdentifiers, a[1..], b[1..]);
  }

  lemma TextOrder()
    ensures CompareStrings("9", "10") == 1 && CompareStrings("rc", "rc") == 0
    ensures CompareIdentifiers("9", "10") == -1
  {
    var nine, ten := "9", "10";
    StringPair("rc", "rc");
    assert nine[..0] == "" && ten[..1] == "1" && "1"[..0] == "";
    assert Strings.Val("1") == 1;
    assert Strings.Val(nine) == 9 && Strings.Val(ten) == 10;
  }

  /** Whenever a release and a prerelease of it are both candidates of the
      greatest numbers, a prerelease is chosen, and it is not the greatest. */
  lemma ReleaseIsShadowed(q: RollbackQuery, u: string, w: string) returns (v: string)
    requires Chosen(q).Ok? && TopCore(q, u) && TopCore(q, w) && IsRelease(w) && !IsRelease(u)
    ensures Chosen(q) == Ok(Some(v)) && Parse(v).Some? && !IsRelease(v) && !Greatest(q, v)
  {
    hide Parse, RollbackRelease, CompareTuples, CompareCore, Compare, ComparePrerelease, Greatest, Candidate, Chosen;
    SomethingIsChosen(q, u);
    v := Chosen(q).value.value;
    GreatestExactlyWhen(q, v);
    ChoiceIsTopCore(q, v);
    assert SameCore(u, v);
    SameNumbers(Parse(u).value, Parse(v).value);
    SameNumbers(Parse(v).value, Parse(u).value);
    ReleasesAreLevel(Parse(v).value, Parse(u).value);
  }

  lemma SomethingIsChosen(q: RollbackQuery, u: string)
    requires Chosen(q).Ok? && TopCore(q, u)
    ensures Chosen(q).value.Some?
  {
    hide RollbackRelease, Candidate, CompareCore;
    ChoiceIsEligible(q);
  }

  // ---- inputs on which the choice is not the greatest --------------------------

  /** The query that a database and the active version it shows pose. */
  function QueryOf(db: Database, backend: string, active: string): RollbackQuery {
    RollbackQuery(Filter(Backend(backend).Has, db.rows), backend, active, RolledBackVersions(db, backend))
  }

  const SUPERSEDED := "SUPERSEDED_BY_ACCEPTED_RELEASE"

  /** An accepted row, routed or superseded; the choice reads no other field. */
  function DeploymentRow(version: string, kind: string, routed: bool): Row {
    var role := if !routed then "INACTIVE" else if kind == SERVICE then "PRIMARY" else "LONG_RUNNING";
    var cause := if routed then "" else SUPERSEDED;
    Row("b", version, Some("a"), kind, role, Some(version + kind), Some("t"), Some("t"), None,
        Some("READY"), Some(false), Some(true), 0, 0, None, None, None, None, None, Some(cause))
  }

  /** A routed pair of the active release and a superseded pair of each of two. */
  function PairRows(v: string, w: string, active: string): seq<Row> {
    [DeploymentRow(v, SERVICE, false), DeploymentRow(v, JOB, false),
     DeploymentRow(w, SERVICE, false), DeploymentRow(w, JOB, false),
     DeploymentRow(active, SERVICE, true), DeploymentRow(active, JOB, true)]
  }

  function PairDatabase(v: string, w: string, active: string): Database {
    Database("validibot.validator-release-state.v1", PairRows(v, w, active), [Validator("b", Some("a"))], [])
  }

  function PairQuery(v: string, w: string, active: string): RollbackQuery {
    QueryOf(PairDatabase(v, w, active), "b", active)
  }

  lemma RowMeans(version: string, kind: string, routed: bool)
    ensures var r := DeploymentRow(version, kind, routed);
            && r.backend == "b" && r.version == version && r.kind == kind && r.validatorId == Some("a")
            && (Routed(r) <==> routed) && Accepted(r) && !Retired(r) && !RowRolledBack(r, "b")
  {
    assert |SUPERSEDED| != |ROLLED_BACK_FROM|;
  }

  lemma PairRowsMean(v: string, w: string, active: string)
    ensures forall r | r in PairRows(v, w, active) ::
              && r.backend == "b" && r.validatorId == Some("a") && Accepted(r) && !Retired(r) && !RowRolledBack(r, "b")
              && (r.version == v || r.version == w || r.version == active) && (Routed(r) ==> r.version == active)
    ensures forall x, kind | x in [v, w] && kind in [SERVICE, JOB] ::
              DeploymentRow(x, kind, false) in PairRows(v, w, active)
    ensures DeploymentRow(active, SERVICE, true) in PairRows(v, w, active)
  {
    hide DeploymentRow, Routed, Accepted, Retired, RowRolledBack;
    forall version, kind, routed
      ensures var r := DeploymentRow(version, kind, routed);
              && r.backend == "b" && r.version == version && r.kind == kind && r.validatorId == Some("a")
              && (Routed(r) <==> routed) && Accepted(r) && !Retired(r) && !RowRolledBack(r, "b")
    {
      RowMeans(version, kind, routed);
    }
    var rows := PairRows(v, w, active);
    assert rows[0] in rows && rows[1] in rows && rows[2] in rows && rows[3] in rows && rows[4] in rows;
  }

  /** The query has all the rows, and its active version is the active release. */
  lemma PairQueryRows(v: string, w: string, active: string)
    ensures var q := PairQuery(v, w, active);
            && (forall r :: r in q.rows <==> r in PairRows(v, w, active))
            && q.rolledBack == {} && q.active == active && q.backend == "b"
            && ActiveRelease(q.rows) == Ok(Some(active))
  {
    hide Filter, PairRows, ActiveRelease, RowRolledBack, Routed;
    PairRowsMean(v, w, active);
    var rows := PairRows(v, w, active);
    FilterMembers(Backend("b").Has, rows);
    assert PairDatabase(v, w, active).rows == rows;
    ActiveReleaseMeans(PairQuery(v, w, active).rows);
    RowMeans(active, SERVICE, true);
  }

  lemma PairIsRestorable(v: string, w: string, active: string, x: string)
    requires (x == v || x == w) && x != active
    ensures PairQuery(v, w, active).Restorable(x)
  {
    hide Filter, PairQuery, PairsComplete, PairRows, DeploymentRow, Accepted, Retired, ActiveRelease;
    var q := PairQuery(v, w, active);
    PairQueryRows(v, w, active);
    PairRowsMean(v, w, active);
    var key := Release("b", x);
    var group := Filter(key.Has, q.rows);
    FilterMembers(key.Has, q.rows);
    FilterMembers(Accepted, group);
    forall kind | kind in [SERVICE, JOB]
      ensures DeploymentRow(x, kind, false) in group && Accepted(DeploymentRow(x, kind, false))
    {
      RowMeans(x, kind, false);
      assert x in [v, w];
    }
    assert SERVICE in [SERVICE, JOB] && JOB in [SERVICE, JOB];
    PairIsComplete(x, group);
    PairIsComplete(x, Filter(Accepted, group));
  }

  lemma PairIsComplete(x: string, rows: seq<Row>)
    requires DeploymentRow(x, SERVICE, false) in rows && DeploymentRow(x, JOB, false) in rows
    requires forall r | r in rows :: r.validatorId == Some("a")
    ensures PairsComplete(rows)
  {
    hide ValidatorIds, DeploymentRow;
    ValidatorIdsMembers(rows);
    RowMeans(x, SERVICE, false);
    RowMeans(x, JOB, false);
    assert Route("a", SERVICE).Has(DeploymentRow(x, SERVICE, false));
    assert Route("a", JOB).Has(DeploymentRow(x, JOB, false));
  }

  /** Of two older releases the one that outranks the other is chosen. */
  lemma PairChoice(v: string, w: string, active: string)
    requires Parse(v).Some? && Parse(w).Some? && Parse(active).Some? && v != active && w != active
    requires Compare(Parse(v).value, Parse(active).value) < 0 && Compare(Parse(w).value, Parse(active).value) < 0
    requires Outranks(w, v)
    ensures var q := PairQuery(v, w, active);
            && ActiveRelease(q.rows) == Ok(Some(active))
            && Chosen(q) == Ok(Some(w)) && Candidate(q, v) && Candidate(q, w)
            && (Greatest(q, w) ==> Compare(Parse(v).value, Parse(w).value) <= 0)
  {
    hide Parse, Compare, Outranks, RollbackRelease, PairQuery, PairRows, DeploymentRow, ActiveRelease, Filter;
    var q := PairQuery(v, w, active);
    PairQueryRows(v, w, active);
    PairRowsMean(v, w, active);
    PairIsRestorable(v, w, active, v);
    PairIsRestorable(v, w, active, w);
    RowMeans(v, SERVICE, false);
    RowMeans(w, SERVICE, false);
    assert v in [v, w] && w in [v, w] && SERVICE in [SERVICE, JOB];
    assert Candidate(q, v) && Candidate(q, w);
    forall x | Present(q, x)
      ensures x == v || x == w || x == active
    {
    }
    assert !q.Restorable(active);
    hide q.Restorable;
    ChoiceIsEligible(q);
    assert Chosen(q).Ok? && Chosen(q).value.Some?;
  }

  /** A prerelease of three numbers, as text. */
  lemma NumberedPrerelease(m: nat, n: nat, p: nat, tag: string, number: string)
    requires ValidIdentifier(tag) && ValidIdentifier(number)
    ensures Parse(Core(m, n, p) + "-" + (tag + "." + number)) == Some(SemVer(m, n, p, [tag, number]))
  {
    hide Parse, Core;
    Strings.JoinFew(tag, number, "", '.');
    assert tag + ['.'] + number == tag + "." + number;
    ProviderNames.FrontWithTag(SemVer(m, n, p, [tag, number]), tag + "." + number);
  }

  /** With a release and its first candidate both accepted under an active next
      major release, such as 1.0.0 and 1.0.0-rc.1 under 2.0.0, the release
      candidate is chosen and is not the greatest. */
  lemma ReleaseCandidateIsChosen(m: nat, n: nat, p: nat)
    ensures var release, candidate := Core(m, n, p), Core(m, n, p) + "-" + "rc.1";
            var q := PairQuery(release, candidate, Core(m + 1, 0, 0));
            && ActiveRelease(q.rows) == Ok(Some(Core(m + 1, 0, 0)))
            && Chosen(q) == Ok(Some(candidate)) && Candidate(q, release)
            && Parse(candidate).Some? && !Greatest(q, candidate)
  {
    hide Parse, Core, Candidate, PairQuery, ActiveRelease;
    var release, candidate, active := Core(m, n, p), Core(m, n, p) + "-" + "rc.1", Core(m + 1, 0, 0);
    ProviderNames.PlainCore(m, n, p);
    ProviderNames.PlainCore(m + 1, 0, 0);
    assert "rc" + "." + "1" == "rc.1";
    NumberedPrerelease(m, n, p, "rc", "1");
    SameNumbers(Parse(release).value, Parse(candidate).value);
    SameNumbers(Parse(candidate).value, Parse(release).value);
    assert Compare(Parse(release).value, Parse(candidate).value) > 0;
    PairChoice(release, candidate, active);
  }

  /** With the ninth and tenth candidates of one release, the ninth is. */
  lemma NinthCandidateIsChosen(m: nat, n: nat, p: nat)
    ensures var nine, ten := Core(m, n, p) + "-" + "rc.9", Core(m, n, p) + "-" + "rc.10";
            var q := PairQuery(ten, nine, Core(m + 1, 0, 0));
            && ActiveRelease(q.rows) == Ok(Some(Core(m + 1, 0, 0)))
            && Chosen(q) == Ok(Some(nine)) && Candidate(q, ten) && Parse(nine).Some? && !Greatest(q, nine)
  {
    hide Parse, Core, Candidate, PairQuery, ActiveRelease;
    var nine, ten, active := Core(m, n, p) + "-" + "rc.9", Core(m, n, p) + "-" + "rc.10", Core(m + 1, 0, 0);
    ProviderNames.PlainCore(m + 1, 0, 0);
    assert "rc" + "." + "9" == "rc.9" && "rc" + "." + "10" == "rc.10";
    NumberedPrerelease(m, n, p, "rc", "9");
    NumberedPrerelease(m, n, p, "rc", "10");
    KeyMisordersNumbers(m, n, p);
    var a, b := SemVer(m, n, p, ["rc", "9"]), SemVer(m, n, p, ["rc", "10"]);
    IdentifiersValid();
    CompareIsPrecedence(a, b);
    PairChoice(ten, nine, active);
  }

  lemma IdentifiersValid()
    ensures ValidIdentifier("rc") && ValidIdentifier("9") && ValidIdentifier("10") && ValidIdentifier("1")
  {
  }

  /** The first of these spelled out. */
  lemma OneZeroZeroExample()
    ensures Parse("1.0.0-rc.1").Some?
    ensures var q := PairQuery("1.0.0", "1.0.0-rc.1", "2.0.0");
            && ActiveRelease(q.rows) == Ok(Some("2.0.0"))
            && Chosen(q) == Ok(Some("1.0.0-rc.1")) && !Greatest(q, "1.0.0-rc.1")
  {
    hide Parse, Core, PairQuery, Chosen, Greatest, ActiveRelease;
    ProviderNames.ShortCore(1, 0, 0);
    ProviderNames.ShortCore(2, 0, 0);
    assert Core(1, 0, 0) == "1.0.0" && Core(2, 0, 0) == "2.0.0";
    assert "1.0.0" + "-" + "rc.1" == "1.0.0-rc.1";
    ReleaseCandidateIsChosen(1, 0, 0);
  }
}
