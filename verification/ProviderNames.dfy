/** The backend inventory and the bounded names of its Cloud Run resources. */
module ProviderNames {
  import opened Wrappers
  import opened Strings
  import opened SemVers
  import opened Orders

  datatype BackendIntent = BackendIntent(slug: string, providerSlug: string, version: string, imageName: string)

  datatype NameError = UnknownKind | UnknownStage | BadVersion | BadName

  const MAX_PROVIDER_NAME_LENGTH := 63

  predicate NameChar(c: char) {
    'a' <= c <= 'z' || IsDigit(c) || c == '-'
  }

  predicate ProviderName(s: string) {
    && 2 <= |s| <= MAX_PROVIDER_NAME_LENGTH
    && 'a' <= s[0] <= 'z' && s[|s| - 1] != '-'
    && forall i | 0 <= i < |s| :: NameChar(s[i])
  }

  function Fold(tag: string): string {
    Lower(Replace(tag, '.', '-'))
  }

  /** What _normalized_version appends for a prerelease and for build metadata. */
  function FoldedTags(version: string): string {
    var plus := Partition(version, '+');
    var dash := Partition(plus.before, '-');
    (if dash.found then "-pre-" + Fold(dash.after) else "")
    + (if plus.found then "-build-" + Fold(plus.after) else "")
  }

  function CoreText(version: string): string {
    Partition(Partition(version, '+').before, '-').before
  }

  function NormalizedVersion(version: string): Option<string> {
    if Parse(version).None? then None
    else Some(Fold(CoreText(version)) + FoldedTags(version))
  }

  function Prefix(kind: string): string {
    if kind == "service" then "vb-vs" else "vb-vj"
  }

  function StageSuffix(stage: string): string {
    if stage == "staging" then "-stg" else ""
  }

  function ProviderResourceName(providerSlug: string, version: string, kind: string, stage: string)
    : Result<string, NameError>
  {
    if kind != "service" && kind != "job" then Err(UnknownKind)
    else if stage != "prod" && stage != "staging" && stage != "dev" then Err(UnknownStage)
    else if stage == "dev" then Checked(Prefix(kind) + "-" + providerSlug + "-dev")
    else
      var normalized := NormalizedVersion(version);
      if normalized.None? then Err(BadVersion)
      else Checked(Prefix(kind) + "-" + providerSlug + "-v" + normalized.value + StageSuffix(stage))
  }

  function Checked(name: string): Result<string, NameError> {
    if ProviderName(name) then Ok(name) else Err(BadName)
  }

  // ---- the inventory -----------------------------------------------------

  /** One entry of backends.toml; release is whether the flag is exactly true. */
  datatype RawBackend = RawBackend(release: bool, slug: string, providerSlug: string, version: string,
      imageName: string)

  datatype InventoryError =
    | UnknownSchema | BadSlug(slug: string) | BadProviderSlug(slug: string) | BadReleaseVersion(slug: string)
    | BadImageName(slug: string) | BadResourceName(slug: string) | NoBackends

  const INVENTORY_SCHEMA_VERSION := 2

  predicate SlugPattern(s: string) {
    s != "" && 'a' <= s[0] <= 'z' && forall i | 0 <= i < |s| :: 'a' <= s[i] <= 'z' || IsDigit(s[i]) || s[i] == '_'
  }

  predicate ProviderSlugPattern(s: string) {
    s != "" && 'a' <= s[0] <= 'z' && forall i | 0 <= i < |s| :: NameChar(s[i])
  }

  predicate EndsWith(s: string, suffix: string) {
    |suffix| <= |s| && s[|s| - |suffix|..] == suffix
  }

  predicate NamesFit(b: RawBackend) {
    forall kind, stage | kind in ["service", "job"] && stage in ["prod", "staging", "dev"] ::
      ProviderResourceName(b.providerSlug, b.version, kind, stage).Ok?
  }

  predicate WellFormed(b: RawBackend) {
    && SlugPattern(b.slug) && ProviderSlugPattern(b.providerSlug) && Parse(b.version).Some?
    && EndsWith(b.imageName, Replace(b.slug, '_', '-'))
    && NamesFit(b)
  }

  function Intent(b: RawBackend): BackendIntent {
    BackendIntent(b.slug, b.providerSlug, b.version, b.imageName)
  }

  /** The release-enabled entries, in file order. */
  function Released(entries: seq<RawBackend>): seq<RawBackend> {
    if entries == [] then []
    else
      var front, last := entries[..|entries| - 1], entries[|entries| - 1];
      if last.release then Released(front) + [last] else Released(front)
  }

  /** Each entry passes the check and repeats no earlier slug. */
  ghost predicate Admissible(ok: RawBackend -> bool, bs: seq<RawBackend>) {
    bs == [] || (Admissible(ok, bs[..|bs| - 1]) && Admits(ok, bs[..|bs| - 1], bs[|bs| - 1]))
  }

  ghost predicate Admits(ok: RawBackend -> bool, bs: seq<RawBackend>, b: RawBackend) {
    ok(b) && b.slug !in Slugs(bs) && b.providerSlug !in ProviderSlugs(bs)
  }

  ghost predicate DistinctSlugs(bs: seq<RawBackend>) {
    forall i, j | 0 <= i < j < |bs| :: bs[i].slug != bs[j].slug && bs[i].providerSlug != bs[j].providerSlug
  }

  lemma DistinctNext(bs: seq<RawBackend>)
    requires bs != []
    ensures var front, last := bs[..|bs| - 1], bs[|bs| - 1];
            DistinctSlugs(bs) <==>
            DistinctSlugs(front) && last.slug !in Slugs(front) && last.providerSlug !in ProviderSlugs(front)
  {
    var front, last := bs[..|bs| - 1], bs[|bs| - 1];
    if DistinctSlugs(bs) {
      forall b | b in front
        ensures b.slug != last.slug && b.providerSlug != last.providerSlug
      {
        var i :| 0 <= i < |front| && front[i] == b;
        assert bs[i].slug != bs[|bs| - 1].slug;
      }
    }
    if DistinctSlugs(front) && last.slug !in Slugs(front) && last.providerSlug !in ProviderSlugs(front) {
      forall i, j | 0 <= i < j < |bs|
        ensures bs[i].slug != bs[j].slug && bs[i].providerSlug != bs[j].providerSlug
      {
        assert bs[i] == front[i] && front[i] in front;
        assert j < |front| ==> bs[j] == front[j];
      }
    }
  }

  /** Admissible lists are those of passing entries with pairwise distinct slugs. */
  lemma {:induction false} AdmissibleMeans(ok: RawBackend -> bool, bs: seq<RawBackend>)
    ensures Admissible(ok, bs) <==> All(ok, bs) && DistinctSlugs(bs)
  {
    hide Slugs, ProviderSlugs, DistinctSlugs;
    if bs == [] {
      assert DistinctSlugs([]) by { NothingRepeats(); }
    } else {
      var front := bs[..|bs| - 1];
      AdmissibleMeans(ok, front);
      DistinctNext(bs);
      assert forall i | 0 <= i < |front| :: bs[i] == front[i];
    }
  }

  lemma NothingRepeats()
    ensures DistinctSlugs([])
  {
  }

  lemma {:induction false} IntentsMembers(bs: seq<RawBackend>)
    ensures |Intents(bs)| == |bs|
    ensures forall i | 0 <= i < |bs| ::
              Intents(bs)[i] == BackendIntent(bs[i].slug, bs[i].providerSlug, bs[i].version, bs[i].imageName)
  {
    if bs != [] {
      IntentsMembers(bs[..|bs| - 1]);
    }
  }

  /** The released entries are those with the flag, in file order. */
  lemma {:induction false} ReleasedInFileOrder(entries: seq<RawBackend>) returns (at: seq<nat>)
    ensures |at| == |Released(entries)|
    ensures forall i | 0 <= i < |at| ::
              at[i] < |entries| && entries[at[i]].release && Released(entries)[i] == entries[at[i]]
    ensures forall i, j | 0 <= i < j < |at| :: at[i] < at[j]
    ensures forall n | 0 <= n < |entries| && entries[n].release :: n in at
  {
    at := [];
    if entries != [] {
      at := ReleasedInFileOrder(entries[..|entries| - 1]);
      if entries[|entries| - 1].release {
        at := at + [|entries| - 1];
      }
    }
  }

  ghost function Slugs(bs: seq<RawBackend>): set<string> {
    set b | b in bs :: b.slug
  }

  ghost function ProviderSlugs(bs: seq<RawBackend>): set<string> {
    set b | b in bs :: b.providerSlug
  }

  function Intents(bs: seq<RawBackend>): seq<BackendIntent> {
    if bs == [] then [] else Intents(bs[..|bs| - 1]) + [Intent(bs[|bs| - 1])]
  }

  lemma NoneYet(ok: RawBackend -> bool)
    ensures Released([]) == [] && Admissible(ok, []) && Intents([]) == [] && Slugs([]) == {} && ProviderSlugs([]) == {}
  {
  }

  lemma DecidesOne(refuse: Refusal, ok: RawBackend -> bool, b: RawBackend, bs: seq<RawBackend>)
    requires Decides(refuse, ok)
    ensures refuse(b, Slugs(bs), ProviderSlugs(bs)).None? <==> Admits(ok, bs, b)
  {
  }

  lemma AdmitOne(ok: RawBackend -> bool, bs: seq<RawBackend>, b: RawBackend)
    ensures Admissible(ok, bs + [b]) <==> Admissible(ok, bs) && Admits(ok, bs, b)
    ensures Slugs(bs + [b]) == Slugs(bs) + {b.slug}
    ensures ProviderSlugs(bs + [b]) == ProviderSlugs(bs) + {b.providerSlug}
    ensures Intents(bs + [b]) == Intents(bs) + [Intent(b)]
  {
    assert (bs + [b])[..|bs|] == bs && (bs + [b])[|bs|] == b;
  }

  /** The first reason to refuse an entry, given the slugs already seen. */
  type Refusal = (RawBackend, set<string>, set<string>) -> Option<InventoryError>

  ghost predicate Decides(refuse: Refusal, ok: RawBackend -> bool) {
    forall b, slugs, providerSlugs :: refuse(b, slugs, providerSlugs).None? <==>
        ok(b) && b.slug !in slugs && b.providerSlug !in providerSlugs
  }

  /** The loop of load_inventory over any refusal that decides a check. */
  method CollectReleased(refuse: Refusal, ghost ok: RawBackend -> bool, entries: seq<RawBackend>)
    returns (r: Result<seq<BackendIntent>, InventoryError>)
    requires Decides(refuse, ok)
    ensures r.Ok? <==> Admissible(ok, Released(entries))
    ensures r.Ok? ==> r.value == Intents(Released(entries))
  {
    hide Released, Admissible, Admits, Intents, Slugs, ProviderSlugs, Decides;
    NoneYet(ok);
    var intents: seq<BackendIntent> := [];
    var seenSlugs, seenProviderSlugs := {}, {};
    var i := 0;
    assert entries[..0] == [];
    while i < |entries|
      invariant 0 <= i <= |entries|
      invariant Admissible(ok, Released(entries[..i]))
      invariant intents == Intents(Released(entries[..i]))
      invariant seenSlugs == Slugs(Released(entries[..i]))
      invariant seenProviderSlugs == ProviderSlugs(Released(entries[..i]))
    {
      var raw := entries[i];
      ReleasedPrefix(ok, entries, i + 1);
      ReleasedNext(entries, i);
      AdmitOne(ok, Released(entries[..i]), raw);
      DecidesOne(refuse, ok, raw, Released(entries[..i]));
      if raw.release {
        var refused := refuse(raw, seenSlugs, seenProviderSlugs);
        if refused.Some? {
          return Err(refused.value);
        }
        intents := intents + [Intent(raw)];
        seenSlugs := seenSlugs + {raw.slug};
        seenProviderSlugs := seenProviderSlugs + {raw.providerSlug};
      }
      i := i + 1;
    }
    assert entries[..i] == entries;
    return Ok(intents);
  }

  lemma ReleasedNext(entries: seq<RawBackend>, i: nat)
    requires i < |entries|
    ensures Released(entries[..i + 1]) == if entries[i].release then Released(entries[..i]) + [entries[i]]
              else Released(entries[..i])
  {
    assert entries[..i + 1][..i] == entries[..i];
  }

  /** Once some prefix is inadmissible the whole list is. */
  lemma {:induction false} ReleasedPrefix(ok: RawBackend -> bool, entries: seq<RawBackend>, i: nat)
    requires i <= |entries|
    ensures Admissible(ok, Released(entries)) ==> Admissible(ok, Released(entries[..i]))
  {
    if i == |entries| {
      assert entries[..i] == entries;
    } else {
      var front, last := entries[..|entries| - 1], entries[|entries| - 1];
      ReleasedPrefix(ok, front, i);
      assert front[..i] == entries[..i];
      if last.release {
        AdmitOne(ok, Released(front), last);
      }
    }
  }

  /** load_inventory succeeds exactly when the file has the known schema and its
      released entries are well formed, unambiguous and not empty; it then
      returns them all in file order. */
  method LoadInventory(schemaVersion: int, entries: seq<RawBackend>)
    returns (r: Result<seq<BackendIntent>, InventoryError>)
    ensures r.Ok? <==>
              && schemaVersion == INVENTORY_SCHEMA_VERSION
              && Released(entries) != [] && Admissible(WellFormed, Released(entries))
    ensures r.Ok? ==> r.value == Intents(Released(entries))
  {
    if schemaVersion != INVENTORY_SCHEMA_VERSION {
      return Err(UnknownSchema);
    }
    RefusalDecides();
    r := CollectReleased(FirstRefusal, WellFormed, entries);
    if r.Ok? && r.value == [] {
      return Err(NoBackends);
    }
  }

  /** What load_inventory asks of one entry: slugs of lower-case letters, digits
      and underscores or hyphens that begin with a letter, a version that
      parses, an image name that ends in the slug with hyphens for underscores,
      and a name for both kinds in each of the three stages. */
  lemma WellFormedMeans(b: RawBackend)
    ensures WellFormed(b) <==>
              && b.slug != "" && 'a' <= b.slug[0] <= 'z'
              && (forall c | c in b.slug :: 'a' <= c <= 'z' || '0' <= c <= '9' || c == '_')
              && b.providerSlug != "" && 'a' <= b.providerSlug[0] <= 'z'
              && (forall c | c in b.providerSlug :: 'a' <= c <= 'z' || '0' <= c <= '9' || c == '-')
              && Parse(b.version).Some? && HasSuffix(b.imageName, Replace(b.slug, '_', '-'))
              && SixNames(b)
  {
    hide Parse, NamesFit, SixNames, SlugPattern, ProviderSlugPattern, EndsWith, HasSuffix, Replace;
    SuffixMeans(b.imageName, Replace(b.slug, '_', '-'));
    NamesFitSix(b);
    SlugMeans(b.slug);
    ProviderSlugMeans(b.providerSlug);
  }

  lemma SlugMeans(s: string)
    ensures SlugPattern(s) <==>
              s != "" && 'a' <= s[0] <= 'z' && forall c | c in s :: 'a' <= c <= 'z' || '0' <= c <= '9' || c == '_'
  {
    assert forall i | 0 <= i < |s| :: s[i] in s;
  }

  lemma ProviderSlugMeans(s: string)
    ensures ProviderSlugPattern(s) <==>
              s != "" && 'a' <= s[0] <= 'z' && forall c | c in s :: 'a' <= c <= 'z' || '0' <= c <= '9' || c == '-'
  {
    assert forall i | 0 <= i < |s| :: s[i] in s;
  }

  predicate SixNames(b: RawBackend) {
    && ProviderResourceName(b.providerSlug, b.version, "service", "prod").Ok?
    && ProviderResourceName(b.providerSlug, b.version, "job", "prod").Ok?
    && ProviderResourceName(b.providerSlug, b.version, "service", "staging").Ok?
    && ProviderResourceName(b.providerSlug, b.version, "job", "staging").Ok?
    && ProviderResourceName(b.providerSlug, b.version, "service", "dev").Ok?
    && ProviderResourceName(b.providerSlug, b.version, "job", "dev").Ok?
  }

  ghost predicate HasSuffix(s: string, suffix: string) {
    exists front :: s == front + suffix
  }

  lemma SuffixMeans(s: string, suffix: string)
    ensures EndsWith(s, suffix) <==> HasSuffix(s, suffix)
  {
    if EndsWith(s, suffix) {
      assert s == s[..|s| - |suffix|] + suffix;
    }
  }

  lemma NamesFitSix(b: RawBackend)
    ensures NamesFit(b) <==> SixNames(b)
  {
    hide ProviderResourceName;
    assert "service" in ["service", "job"] && "job" in ["service", "job"];
    assert "prod" in ["prod", "staging", "dev"] && "staging" in ["prod", "staging", "dev"]
        && "dev" in ["prod", "staging", "dev"];
  }

  lemma RefusalDecides()
    ensures Decides(FirstRefusal, WellFormed)
  {
  }

  function FirstRefusal(b: RawBackend, seenSlugs: set<string>, seenProviderSlugs: set<string>): Option<InventoryError>
  {
    if !SlugPattern(b.slug) || b.slug in seenSlugs then Some(BadSlug(b.slug))
    else if !ProviderSlugPattern(b.providerSlug) || b.providerSlug in seenProviderSlugs then
      Some(BadProviderSlug(b.providerSlug))
    else if Parse(b.version).None? then Some(BadReleaseVersion(b.slug))
    else if !EndsWith(b.imageName, Replace(b.slug, '_', '-')) then Some(BadImageName(b.slug))
    else if !NamesFit(b) then Some(BadResourceName(b.slug))
    else None
  }

  // ---- normalized versions -------------------------------------------------------

  /** A version without a prerelease and without build metadata. */
  predicate PlainVersion(version: string) {
    Parse(version).Some? && CoreText(version) == version
  }

  function Dashed(major: nat, minor: nat, patch: nat): string {
    Dec(major) + "-" + Dec(minor) + "-" + Dec(patch)
  }

  lemma FoldCore(major: nat, minor: nat, patch: nat)
    ensures Fold(Core(major, minor, patch)) == Dashed(major, minor, patch)
  {
    DecIsNumeral(major);
    DecIsNumeral(minor);
    DecIsNumeral(patch);
    JoinFew(Dec(major), Dec(minor), Dec(patch), '.');
    hide Dec, Fold;
    var core := Core(major, minor, patch);
    var dashed := Dashed(major, minor, patch);
    FoldDigits(core);
    forall i | 0 <= i < |core|
      ensures Fold(core)[i] == dashed[i]
    {
      assert core[i] == if dashed[i] == '-' then '.' else dashed[i];
    }
  }

  lemma FoldDigits(s: string)
    requires forall i | 0 <= i < |s| :: IsDigit(s[i]) || s[i] == '.'
    ensures |Fold(s)| == |s| && forall i | 0 <= i < |s| :: Fold(s)[i] == if s[i] == '.' then '-' else s[i]
  {
  }

  lemma NumeralsHaveNoDash(m: nat, n: nat)
    ensures '-' !in Dec(m) && '-' !in Dec(n)
  {
    DecIsNumeral(m);
    DecIsNumeral(n);
  }

  // ---- exactly when a name is produced ------------------------------------

  /** The characters of a version or of one of its tags. */
  predicate VersionChars(s: string) {
    forall i | 0 <= i < |s| :: IdentifierChar(s[i]) || s[i] == '.'
  }

  predicate DashLike(c: char) {
    c == '-' || c == '.'
  }

  lemma FoldShape(s: string)
    requires VersionChars(s)
    ensures |Fold(s)| == |s| && forall i | 0 <= i < |s| :: NameChar(Fold(s)[i])
    ensures forall i | 0 <= i < |s| :: Fold(s)[i] == '-' <==> DashLike(s[i])
  {
  }

  /** How much longer a normalized version is: its tags are introduced by words. */
  function Extra(v: string): nat {
    (if Partition(Partition(v, '+').before, '-').found then 4 else 0) + (if '+' in v then 6 else 0)
  }

  predicate EndsInDash(s: string) {
    s != "" && DashLike(s[|s| - 1])
  }

  lemma PartsOfVersion(v: string)
    requires Parse(v).Some?
    ensures var plus := Partition(v, '+');
            var dash := Partition(plus.before, '-');
            && dash.before != "" && VersionChars(dash.before) && !EndsInDash(dash.before)
            && (dash.found ==> dash.after != "" && VersionChars(dash.after))
            && (plus.found ==> plus.after != "" && VersionChars(plus.after))
  {
    hide Dec, Val, Split, Join;
    var a := Parse(v).value;
    CoreTextOf(v);
    CoreShape(a.major, a.minor, a.patch);
    JoinFew(Dec(a.major), Dec(a.minor), Dec(a.patch), '.');
    DecIsNumeral(a.patch);
    var core := CoreText(v);
    assert core[|core| - 1] == Dec(a.patch)[|Dec(a.patch)| - 1];
  }

  /** Normalized text of name characters that ends in a hyphen when s ends like one. */
  predicate Shaped(s: string, n: string) {
    s != "" && n != "" && (forall i | 0 <= i < |n| :: NameChar(n[i])) && (n[|n| - 1] == '-' <==> EndsInDash(s))
  }

  /** The length, characters and last character of a normalized version. */
  lemma NormalizedShape(v: string)
    requires Parse(v).Some?
    ensures v != "" && NormalizedVersion(v).Some?
    ensures var n := NormalizedVersion(v).value; |n| == |v| + Extra(v) && Shaped(v, n)
  {
    hide Parse, Fold, Partition, VersionChars, EndsInDash, NormalizedVersion, Shaped;
    var plus := Partition(v, '+');
    var dash := Partition(plus.before, '-');
    PartsOfVersion(v);
    PartitionParts(v, '+');
    PartitionParts(plus.before, '-');
    NormalizedParts(v);
    FoldedCore(dash.before);
    var front := Fold(dash.before) + if dash.found then "-pre-" + Fold(dash.after) else "";
    if dash.found {
      FoldedTag(dash.before, Fold(dash.before), '-', "-pre-", dash.after);
    } else {
      assert front == Fold(dash.before);
    }
    assert Shaped(plus.before, front);
    if plus.found {
      FoldedTag(plus.before, front, '+', "-build-", plus.after);
    } else {
      assert NormalizedVersion(v).value == front;
      NoPlus(v);
    }
    ShapedMeans(v, NormalizedVersion(v).value);
  }

  lemma ShapedMeans(s: string, n: string)
    requires Shaped(s, n)
    ensures s != "" && n != ""
  {
  }

  lemma NoPlus(v: string)
    requires !Partition(v, '+').found
    ensures '+' !in v && v == Partition(v, '+').before
  {
    hide Partition;
    PartitionParts(v, '+');
  }

  lemma FoldedCore(core: string)
    requires core != "" && VersionChars(core)
    ensures Shaped(core, Fold(core)) && |Fold(core)| == |core|
  {
    hide Fold;
    FoldShape(core);
  }

  /** A tag after its separator, folded after the word that introduces it. */
  lemma FoldedTag(s: string, n: string, sep: char, word: string, tag: string)
    requires Shaped(s, n) && tag != "" && VersionChars(tag) && forall i | 0 <= i < |word| :: NameChar(word[i])
    ensures var longer := n + (word + Fold(tag));
            Shaped(s + [sep] + tag, longer) && |longer| == |n| + |word| + |tag|
  {
    hide Fold;
    FoldShape(tag);
    LastOfTagged(s, sep, tag);
  }

  lemma LastOfTagged(s: string, sep: char, tag: string)
    requires tag != ""
    ensures EndsInDash(s + [sep] + tag) <==> EndsInDash(tag)
  {
  }

  lemma NormalizedParts(v: string)
    requires Parse(v).Some?
    ensures var plus := Partition(v, '+');
            var dash := Partition(plus.before, '-');
            NormalizedVersion(v) == Some(Fold(dash.before) + (if dash.found then "-pre-" + Fold(dash.after) else "")
                                         + (if plus.found then "-build-" + Fold(plus.after) else ""))
  {
    hide Parse, Fold;
    var plus := Partition(v, '+');
    var dash := Partition(plus.before, '-');
    var pre := if dash.found then "-pre-" + Fold(dash.after) else "";
    var build := if plus.found then "-build-" + Fold(plus.after) else "";
    assert Fold(dash.before) + (pre + build) == Fold(dash.before) + pre + build;
    assert CoreText(v) == dash.before && FoldedTags(v) == pre + build;
  }

  /** The length of the name, were one produced. */
  function NameLength(p: string, v: string, stage: string): nat {
    6 + |p| + if stage == "dev" then 4 else 2 + |v| + Extra(v) + |StageSuffix(stage)|
  }

  /** What a caller can check beforehand: a known kind and stage, a version that
      parses where one is used, a slug of name characters, and a name short
      enough that, in production, does not end like a hyphen. */
  predicate NameFits(p: string, v: string, kind: string, stage: string) {
    && (kind == "service" || kind == "job")
    && (stage == "dev" || ((stage == "prod" || stage == "staging") && Parse(v).Some?))
    && (forall i | 0 <= i < |p| :: NameChar(p[i]))
    && NameLength(p, v, stage) <= MAX_PROVIDER_NAME_LENGTH
    && (stage == "prod" ==> !EndsInDash(v))
  }

  /** A name is produced exactly when it fits. */
  lemma NameExactlyWhen(p: string, v: string, kind: string, stage: string)
    ensures ProviderResourceName(p, v, kind, stage).Ok? <==> NameFits(p, v, kind, stage)
    ensures ProviderResourceName(p, v, kind, stage).Ok? ==>
              |ProviderResourceName(p, v, kind, stage).value| == NameLength(p, v, stage)
  {
    hide Parse, NormalizedVersion, Extra, EndsInDash, ProviderName;
    if stage == "dev" {
      FramedName(Prefix(kind) + "-", p, "-dev");
    } else if Parse(v).Some? {
      NormalizedShape(v);
      var normalized := NormalizedVersion(v).value;
      var rest := "-v" + normalized + StageSuffix(stage);
      assert Prefix(kind) + "-" + p + "-v" + normalized + StageSuffix(stage) == Prefix(kind) + "-" + p + rest;
      FramedName(Prefix(kind) + "-", p, rest);
    } else {
      Unnormalized(v);
    }
  }

  /** The text of a name. */
  lemma NameText(p: string, v: string, kind: string, stage: string)
    requires ProviderResourceName(p, v, kind, stage).Ok?
    ensures ProviderResourceName(p, v, kind, stage).value ==
            (if kind == "service" then "vb-vs-" else "vb-vj-") + p
            + (if stage == "dev" then "-dev"
               else "-v" + NormalizedVersion(v).value + if stage == "staging" then "-stg" else "")
  {
    hide Parse, Fold, Partition, ProviderName;
  }

  /** The folded form of a tag: dots become hyphens, capitals small letters. */
  lemma FoldMeans(s: string)
    ensures |Fold(s)| == |s|
    ensures forall i | 0 <= i < |s| ::
              Fold(s)[i] == if s[i] == '.' then '-'
                            else if 'A' <= s[i] <= 'Z' then (s[i] as int - 'A' as int + 'a' as int) as char
                            else s[i]
  {
  }

  /** The normalized text of a version that was put together from its parts. */
  lemma NormalizedText(v: SemVer, build: Option<string>)
    requires Valid(v) && (build.Some? ==> TagChars(build.value))
    ensures NormalizedVersion(Print(v, build)) ==
            Some(Dec(v.major) + "-" + Dec(v.minor) + "-" + Dec(v.patch)
                 + (if v.prerelease == [] then "" else "-pre-" + Fold(Join(v.prerelease, '.')))
                 + (if build.None? then "" else "-build-" + Fold(build.value)))
  {
    hide Parse, Fold, Dec, Val, Join, Split, Partition;
    ParseOfPrint(v, build);
    PrintShape(v, build);
    FrontShape(v);
    FoldCore(v.major, v.minor, v.patch);
    NormalizedParts(Print(v, build));
  }

  lemma Unnormalized(v: string)
    ensures NormalizedVersion(v).None? <==> Parse(v).None?
  {
  }

  /** A slug between two parts that are already of name characters. */
  lemma FramedName(front: string, p: string, rest: string)
    requires front != "" && 'a' <= front[0] <= 'z' && |front| >= 2 && rest != ""
    requires forall i | 0 <= i < |front| :: NameChar(front[i])
    requires forall i | 0 <= i < |rest| :: NameChar(rest[i])
    ensures ProviderName(front + p + rest)
       <==> |front| + |p| + |rest| <= MAX_PROVIDER_NAME_LENGTH && rest[|rest| - 1] != '-'
            && forall i | 0 <= i < |p| :: NameChar(p[i])
  {
    var name := front + p + rest;
    assert forall i | 0 <= i < |p| :: name[|front| + i] == p[i];
  }

  /** Every printed name passes the provider's own pattern and length limit. */
  lemma NamesAreBounded(p: string, v: string, k: string, stage: string)
    requires ProviderResourceName(p, v, k, stage).Ok?
    ensures ProviderName(ProviderResourceName(p, v, k, stage).value)
    ensures '/' !in ProviderResourceName(p, v, k, stage).value
  {
  }

  /** The development stage puts no version in a name: every two versions of one
      backend share it. */
  lemma DevNamesIgnoreVersion(p: string, v: string, w: string, kind: string)
    requires ProviderSlugPattern(p) && |p| <= 53 && (kind == "service" || kind == "job")
    ensures ProviderResourceName(p, v, kind, "dev").Ok?
    ensures ProviderResourceName(p, v, kind, "dev") == ProviderResourceName(p, w, kind, "dev")
  {
    NameExactlyWhen(p, v, kind, "dev");
  }

  /** Two versions share a normalized form exactly when their numbers agree and
      their folded tags do: the numbers are never lost. */
  lemma NormalizedCollision(v: string, w: string)
    requires Parse(v).Some? && Parse(w).Some?
    ensures NormalizedVersion(v) == NormalizedVersion(w) <==>
              CoreText(v) == CoreText(w) && FoldedTags(v) == FoldedTags(w)
  {
    var a, b := Parse(v).value, Parse(w).value;
    CoreTextOf(v);
    CoreTextOf(w);
    if NormalizedVersion(v) == NormalizedVersion(w) {
      FoldCore(a.major, a.minor, a.patch);
      FoldCore(b.major, b.minor, b.patch);
      var s := NormalizedVersion(v).value;
      TagsShape(v);
      TagsShape(w);
      DashedPrefix(s, a.major, a.minor, a.patch, FoldedTags(v), b.major, b.minor, b.patch, FoldedTags(w));
    }
  }

  lemma CoreTextOf(v: string)
    requires Parse(v).Some?
    ensures var a := Parse(v).value; CoreText(v) == Core(a.major, a.minor, a.patch)
  {
    FrontOfParse(v);
    FrontShape(Parse(v).value);
  }

  lemma TagsShape(v: string)
    ensures FoldedTags(v) == "" || (|FoldedTags(v)| >= 2 && FoldedTags(v)[0] == '-' && !IsDigit(FoldedTags(v)[1]))
  {
  }

  /** A dashed triple followed by nothing or by a dash and a letter is read
      from the left in one way only. */
  lemma DashedPrefix(s: string, a: nat, b: nat, c: nat, t: string, d: nat, e: nat, f: nat, u: string)
    requires s == Dashed(a, b, c) + t && s == Dashed(d, e, f) + u
    requires t == "" || t[0] == '-'
    requires u == "" || u[0] == '-'
    ensures a == d && b == e && c == f && t == u
  {
    hide Dec;
    NumeralsHaveNoDash(a, d);
    NumeralsHaveNoDash(b, e);
    NumeralsHaveNoDash(c, f);
    assert s == Dec(a) + ['-'] + (Dec(b) + "-" + Dec(c) + t) && s == Dec(d) + ['-'] + (Dec(e) + "-" + Dec(f) + u);
    FirstSeparator(Dec(a), Dec(b) + "-" + Dec(c) + t, Dec(d), Dec(e) + "-" + Dec(f) + u);
    assert Dec(b) + "-" + Dec(c) + t == Dec(b) + ['-'] + (Dec(c) + t);
    assert Dec(e) + "-" + Dec(f) + u == Dec(e) + ['-'] + (Dec(f) + u);
    FirstSeparator(Dec(b), Dec(c) + t, Dec(e), Dec(f) + u);
    DecInjective(a, d);
    DecInjective(b, e);
    UntilDash(Dec(c), t, Dec(f), u);
    DecInjective(c, f);
  }

  lemma FirstSeparator(x: string, d: string, y: string, e: string)
    requires x + ['-'] + d == y + ['-'] + e
    requires '-' !in x && '-' !in y
    ensures x == y && d == e
  {
    PartitionUnique(x, '-', d);
    PartitionUnique(y, '-', e);
  }

  lemma UntilDash(x: string, t: string, y: string, u: string)
    requires x + t == y + u && '-' !in x && '-' !in y
    requires (t == "" || t[0] == '-') && (u == "" || u[0] == '-')
    ensures x == y && t == u
  {
    var s := x + t;
    assert forall i | 0 <= i < |x| :: s[i] == x[i] != '-';
    assert forall i | 0 <= i < |y| :: s[i] == y[i] != '-';
    assert t != "" ==> s[|x|] == '-';
    assert u != "" ==> s[|y|] == '-';
    assert |x| == |y|;
    assert x == s[..|x|] && y == s[..|y|] && t == s[|x|..] && u == s[|y|..];
  }

  lemma TagsOf(core: string, tag: string)
    requires '+' !in core && '-' !in core && '+' !in tag
    ensures CoreText(core + "-" + tag) == core
    ensures FoldedTags(core + "-" + tag) == "-pre-" + Fold(tag)
  {
    var version := core + ['-'] + tag;
    assert version == core + "-" + tag;
    PartitionUnique(version, '+', "");
    PartitionUnique(core, '-', tag);
  }

  lemma FrontWithTag(v: SemVer, tag: string)
    requires Valid(v) && v.prerelease != [] && Join(v.prerelease, '.') == tag
    ensures var version := Core(v.major, v.minor, v.patch) + "-" + tag;
            && Parse(version) == Some(v)
            && NormalizedVersion(version) == Some(Dashed(v.major, v.minor, v.patch) + "-pre-" + Fold(tag))
  {
    hide Parse, Fold, Dec, Val, Join, Split;
    var core := Core(v.major, v.minor, v.patch);
    ParseOfPrint(v, None);
    FrontShape(v);
    CoreShape(v.major, v.minor, v.patch);
    FoldCore(v.major, v.minor, v.patch);
    PrintWithoutBuild(v);
    assert Front(v) == core + "-" + tag;
    TagsOf(core, tag);
    assert Dashed(v.major, v.minor, v.patch) + ("-pre-" + Fold(tag))
        == Dashed(v.major, v.minor, v.patch) + "-pre-" + Fold(tag);
  }

  /** The normalized form is not injective on prereleases: an identifier x-y
      and the two identifiers x.y are written alike. */
  lemma PrereleasesCollide(m: nat, n: nat, p: nat, x: string, y: string)
    requires ValidIdentifier(x) && ValidIdentifier(y)
    ensures var dotted, dashed := Core(m, n, p) + "-" + (x + ['.'] + y), Core(m, n, p) + "-" + (x + ['-'] + y);
            && Parse(dotted) == Some(SemVer(m, n, p, [x, y]))
            && Parse(dashed) == Some(SemVer(m, n, p, [x + ['-'] + y]))
            && NormalizedVersion(dotted) == NormalizedVersion(dashed)
  {
    var id := x + ['-'] + y;
    DashedIdentifier(x, y);
    JoinFew(x, y, "", '.');
    FrontWithTag(SemVer(m, n, p, [x, y]), x + ['.'] + y);
    FrontWithTag(SemVer(m, n, p, [id]), id);
    FoldMerges(x, y);
  }

  lemma FoldMerges(x: string, y: string)
    ensures Fold(x + ['.'] + y) == Fold(x + ['-'] + y)
  {
    var dotted, dashed := x + ['.'] + y, x + ['-'] + y;
    assert Replace(dotted, '.', '-') == Replace(dashed, '.', '-');
  }

  lemma DashedIdentifier(x: string, y: string)
    requires ValidIdentifier(x) && ValidIdentifier(y)
    ensures ValidIdentifier(x + ['-'] + y)
  {
    var id := x + ['-'] + y;
    assert id[|x|] == '-' && !IsDigit(id[|x|]);
  }

  // ---- exactly when two releases share a name --------------------------------

  /** Slug q is slug p and the beginning of p's version, and q's version is the
      rest of it. */
  predicate GoesOn(p: string, n: string, q: string, m: string) {
    && |p| + 2 <= |q|
    && var x := q[|p| + 2..]; q == p + "-v" + x && n == x + "-v" + m
  }

  /** Slugs and normalized versions that are joined to one text: the same ones, or
      one slug goes on into what the other has as its version. */
  predicate OneText(p: string, n: string, q: string, m: string) {
    (p == q && n == m) || GoesOn(p, n, q, m) || GoesOn(q, m, p, n)
  }

  lemma CutOnce(p: string, n: string, q: string, m: string)
    requires p + "-v" + n == q + "-v" + m && |p| < |q|
    ensures GoesOn(p, n, q, m)
  {
    var s := p + "-v" + n;
    assert s == q + "-v" + m;
    assert s[|p|] == '-' && s[|p| + 1] == 'v' && s[|q|] == '-';
    var x := q[|p| + 2..];
    assert q == s[..|q|] && s[..|p|] == p && q == p + "-v" + x;
    assert n == s[|p| + 2..] && s[|q|..] == "-v" + m && x == s[|p| + 2..|q|];
  }

  lemma CutTwice(p: string, n: string, q: string, m: string)
    ensures p + "-v" + n == q + "-v" + m <==> OneText(p, n, q, m)
  {
    if p + "-v" + n == q + "-v" + m {
      if |p| < |q| {
        CutOnce(p, n, q, m);
      } else if |q| < |p| {
        CutOnce(q, m, p, n);
      } else {
        var s := p + "-v" + n;
        assert p == s[..|p|] && q == s[..|p|] && n == s[|p| + 2..] && m == s[|p| + 2..];
      }
    }
  }

  /** What a caller can compute before asking for either name. */
  predicate ShareName(p: string, v: string, k: string, q: string, w: string, l: string) {
    && k == l && NormalizedVersion(v).Some? && NormalizedVersion(w).Some?
    && OneText(p, NormalizedVersion(v).value, q, NormalizedVersion(w).value)
  }

  /** In production and in staging two releases share a name exactly when their
      slugs and normalized versions are cut from one text. */
  lemma NamesCollideExactlyWhen(p: string, v: string, k: string, q: string, w: string, l: string, stage: string)
    requires stage == "prod" || stage == "staging"
    ensures ShareName(p, v, k, q, w, l) ==>
              ProviderResourceName(p, v, k, stage) == ProviderResourceName(q, w, l, stage)
    ensures ProviderResourceName(p, v, k, stage).Ok? ==>
              (ProviderResourceName(p, v, k, stage) == ProviderResourceName(q, w, l, stage)
               <==> ShareName(p, v, k, q, w, l))
  {
    hide NormalizedVersion, ProviderName, OneText;
    if NormalizedVersion(v).Some? && NormalizedVersion(w).Some? {
      var n, m := NormalizedVersion(v).value, NormalizedVersion(w).value;
      CutTwice(p, n, q, m);
      Framed(Prefix(k), p, n, Prefix(l), q, m, StageSuffix(stage));
    }
  }

  /** The kind and the stage add a fixed frame around slug and version. */
  lemma Framed(front: string, p: string, n: string, before: string, q: string, m: string, suffix: string)
    requires |front| == |before|
    ensures front + "-" + p + "-v" + n + suffix == before + "-" + q + "-v" + m + suffix
       <==> front == before && p + "-v" + n == q + "-v" + m
  {
    var s, t := p + "-v" + n, q + "-v" + m;
    assert front + "-" + p + "-v" + n + suffix == front + "-" + s + suffix;
    assert before + "-" + q + "-v" + m + suffix == before + "-" + t + suffix;
    if front + "-" + s + suffix == before + "-" + t + suffix {
      StripSuffix(front + "-" + s, before + "-" + t, suffix, front + "-" + s + suffix);
      var whole := front + "-" + s;
      assert front == whole[..|front|] && before == whole[..|front|];
      assert s == whole[|front| + 1..] && t == whole[|front| + 1..];
    }
  }

  lemma StripSuffix(left: string, right: string, suffix: string, whole: string)
    requires whole == left + suffix && whole == right + suffix
    ensures left == right
  {
    assert left == whole[..|whole| - |suffix|] && right == whole[..|whole| - |suffix|];
  }

  /** A word of a tag, between dots and hyphens, that starts like a version: with
      the letter v and a digit. */
  predicate VersionWordAt(tag: string, i: nat) {
    && i + 1 < |tag| && (i == 0 || DashLike(tag[i - 1]))
    && (tag[i] == 'v' || tag[i] == 'V') && IsDigit(tag[i + 1])
  }

  predicate HasVersionWord(tag: string) {
    exists i | 0 <= i < |tag| :: VersionWordAt(tag, i)
  }

  /** A version whose prerelease or build part has such a word. */
  predicate NamesAVersion(version: string) {
    var plus := Partition(version, '+');
    var dash := Partition(plus.before, '-');
    (dash.found && HasVersionWord(dash.after)) || (plus.found && HasVersionWord(plus.after))
  }

  /** In production and in staging a name determines slug, kind and normalized
      version, unless the release with the shorter slug names a version within
      its own. */
  lemma NameDetermines(p: string, v: string, k: string, q: string, w: string, l: string, stage: string)
    requires stage == "prod" || stage == "staging"
    requires |p| < |q| ==> !NamesAVersion(v)
    requires |q| < |p| ==> !NamesAVersion(w)
    requires ProviderResourceName(p, v, k, stage).Ok?
    requires ProviderResourceName(p, v, k, stage) == ProviderResourceName(q, w, l, stage)
    ensures p == q && k == l
    ensures Parse(v).Some? && Parse(w).Some? && NormalizedVersion(v) == NormalizedVersion(w)
  {
    hide Parse, NormalizedVersion, NamesAVersion, ProviderResourceName;
    NamesCollideExactlyWhen(p, v, k, q, w, l, stage);
    Unnormalized(v);
    Unnormalized(w);
    var n, m := NormalizedVersion(v).value, NormalizedVersion(w).value;
    if GoesOn(p, n, q, m) {
      GoingOnNamesAVersion(v, q[|p| + 2..], w);
    } else if GoesOn(q, m, p, n) {
      GoingOnNamesAVersion(w, p[|q| + 2..], v);
    }
  }

  /** A hyphen, the letter v and a digit. */
  predicate VersionMark(s: string, i: nat) {
    i + 2 < |s| && s[i] == '-' && s[i + 1] == 'v' && IsDigit(s[i + 2])
  }

  lemma GoingOnNamesAVersion(v: string, x: string, w: string)
    requires Parse(v).Some? && Parse(w).Some?
    requires NormalizedVersion(v).value == x + "-v" + NormalizedVersion(w).value
    ensures NamesAVersion(v)
  {
    hide Parse, NormalizedVersion, NamesAVersion;
    NormalizedStart(v);
    NormalizedStart(w);
    MarkIsInTags(v, |x|);
  }

  lemma NormalizedStart(v: string)
    requires Parse(v).Some?
    ensures NormalizedVersion(v).Some? && NormalizedVersion(v).value != "" && IsDigit(NormalizedVersion(v).value[0])
  {
    hide Parse, Fold, Dec;
    var a := Parse(v).value;
    CoreTextOf(v);
    FoldCore(a.major, a.minor, a.patch);
    DecIsNumeral(a.major);
  }

  lemma MarkIsInTags(v: string, i: nat)
    requires Parse(v).Some? && NormalizedVersion(v).Some? && VersionMark(NormalizedVersion(v).value, i)
    ensures NamesAVersion(v)
  {
    hide Parse, NormalizedVersion, Fold, Dec, HasVersionWord, VersionMark;
    NormalizedParts(v);
    var plus := Partition(v, '+');
    var dash := Partition(plus.before, '-');
    var core := Fold(dash.before);
    var pre := if dash.found then "-pre-" + Fold(dash.after) else "";
    var build := if plus.found then "-build-" + Fold(plus.after) else "";
    NoMarkInCore(v);
    MarkInOnePart(core + pre, build, i);
    if VersionMark(core + pre, i) {
      MarkInOnePart(core, pre, i);
      MarkInTag("-pre-", dash.after, i - |core|);
    } else {
      MarkInTag("-build-", plus.after, i - |core + pre|);
    }
  }

  lemma NoMarkInCore(v: string)
    requires Parse(v).Some?
    ensures forall i: nat :: !VersionMark(Fold(Partition(Partition(v, '+').before, '-').before), i)
  {
    hide Parse, Fold, Dec;
    var a := Parse(v).value;
    CoreTextOf(v);
    FoldCore(a.major, a.minor, a.patch);
    DecIsNumeral(a.major);
    DecIsNumeral(a.minor);
    DecIsNumeral(a.patch);
    var dashed := Dashed(a.major, a.minor, a.patch);
    assert forall i | 0 <= i < |dashed| :: dashed[i] != 'v';
  }

  lemma MarkInOnePart(s: string, t: string, i: nat)
    requires VersionMark(s + t, i) && (t == "" || t[0] == '-')
    ensures VersionMark(s, i) || (|s| <= i && t != "" && VersionMark(t, i - |s|))
  {
    assert t != "" ==> (s + t)[|s|] == t[0];
  }

  lemma MarkInTag(word: string, tag: string, i: nat)
    requires word == "-pre-" || word == "-build-"
    ensures VersionMark(word + Fold(tag), i) ==> HasVersionWord(tag)
  {
    var s := word + Fold(tag);
    if VersionMark(s, i) {
      assert s[i + 1] == 'v' && |word| <= i + 1;
      assert VersionWordAt(tag, i + 1 - |word|);
    }
  }

  /** So a name determines backend, kind and plain version, whatever hyphens,
      digits and letters v the slugs contain. */
  lemma NameInjective(p: string, v: string, k: string, q: string, w: string, l: string, stage: string)
    requires stage == "prod" || stage == "staging"
    requires PlainVersion(v) && PlainVersion(w)
    requires ProviderResourceName(p, v, k, stage).Ok?
    requires ProviderResourceName(p, v, k, stage) == ProviderResourceName(q, w, l, stage)
    ensures p == q && v == w && k == l
  {
    hide Parse, NormalizedVersion, ProviderResourceName;
    PlainNamesNone(v);
    PlainNamesNone(w);
    NameDetermines(p, v, k, q, w, l, stage);
    NormalizedCollision(v, w);
  }

  lemma PlainNamesNone(version: string)
    requires PlainVersion(version)
    ensures !NamesAVersion(version)
  {
    hide Parse, HasVersionWord;
    PartitionParts(version, '+');
    PartitionParts(Partition(version, '+').before, '-');
  }

  /** Nor is the whole name injective across backends once a version may carry
      a prerelease: release m.n.p-va.b.c of one backend and release a.b.c of a
      backend with a longer slug get the same resource name. */
  lemma BackendsCollide(slug: string, m: nat, n: nat, p: nat, a: nat, b: nat, c: nat, kind: string, stage: string)
    requires stage == "prod" || stage == "staging"
    ensures var other, long := slug + "-v" + Dashed(m, n, p) + "-pre", Core(m, n, p) + "-" + ("v" + Core(a, b, c));
            && other != slug
            && Parse(long).Some? && Parse(Core(a, b, c)).Some?
            && ProviderResourceName(slug, long, kind, stage) == ProviderResourceName(other, Core(a, b, c), kind, stage)
            && (ProviderSlugPattern(slug) ==> ProviderSlugPattern(other))
            && (ProviderSlugPattern(slug) && (kind == "service" || kind == "job")
                && NameLength(slug, long, stage) <= MAX_PROVIDER_NAME_LENGTH
                ==> ProviderResourceName(slug, long, kind, stage).Ok?)
  {
    hide Parse, NormalizedVersion, Core, Dashed, ProviderName, EndsInDash, Extra;
    NameExactlyWhen(slug, Core(m, n, p) + "-" + ("v" + Core(a, b, c)), kind, stage);
    LetteredEnd(m, n, p, a, b, c);
    if ProviderSlugPattern(slug) {
      LongerSlug(slug, m, n, p);
    }
    LetteredCore(m, n, p, a, b, c);
    PlainCore(a, b, c);
    SlugGoesOn(slug, Dashed(m, n, p), Dashed(a, b, c));
    var long := Core(m, n, p) + "-" + ("v" + Core(a, b, c));
    NamesCollideExactlyWhen(slug, long, kind, slug + "-v" + Dashed(m, n, p) + "-pre", Core(a, b, c), kind, stage);
  }

  lemma LetteredEnd(m: nat, n: nat, p: nat, a: nat, b: nat, c: nat)
    ensures !EndsInDash(Core(m, n, p) + "-" + ("v" + Core(a, b, c)))
  {
    hide Parse, Dec, Core;
    PlainCore(a, b, c);
    var core := Core(a, b, c);
    PlainParts(core);
    assert core != "" && ("v" + core)[|"v" + core| - 1] == core[|core| - 1];
    LastOfTagged(Core(m, n, p), '-', "v" + core);
  }

  lemma PlainParts(version: string)
    requires PlainVersion(version)
    ensures version != "" && !EndsInDash(version)
  {
    hide Parse;
    PartsOfVersion(version);
  }

  lemma LongerSlug(slug: string, m: nat, n: nat, p: nat)
    requires ProviderSlugPattern(slug)
    ensures ProviderSlugPattern(slug + "-v" + Dashed(m, n, p) + "-pre")
  {
    hide Dec;
    DecIsNumeral(m);
    DecIsNumeral(n);
    DecIsNumeral(p);
    var dashed := Dashed(m, n, p);
    assert forall i | 0 <= i < |dashed| :: NameChar(dashed[i]);
  }

  lemma SlugGoesOn(slug: string, d: string, e: string)
    ensures GoesOn(slug, d + "-pre-" + ("v" + e), slug + "-v" + d + "-pre", e)
  {
    var other := slug + "-v" + d + "-pre";
    assert other[|slug| + 2..] == d + "-pre";
  }

  lemma LetteredCore(m: nat, n: nat, p: nat, a: nat, b: nat, c: nat)
    ensures var version := Core(m, n, p) + "-" + ("v" + Core(a, b, c));
            && Parse(version).Some?
            && NormalizedVersion(version) == Some(Dashed(m, n, p) + "-pre-" + ("v" + Dashed(a, b, c)))
  {
    hide Parse, NormalizedVersion, Fold, Dec, Dashed;
    var tag := "v" + Core(a, b, c);
    DecIsNumeral(a);
    DecIsNumeral(b);
    DecIsNumeral(c);
    JoinFew("v" + Dec(a), Dec(b), Dec(c), '.');
    JoinFew(Dec(a), Dec(b), Dec(c), '.');
    assert tag == "v" + Dec(a) + ['.'] + (Dec(b) + ['.'] + Dec(c));
    FrontWithTag(SemVer(m, n, p, ["v" + Dec(a), Dec(b), Dec(c)]), tag);
    FoldCore(a, b, c);
    FoldLetter(Core(a, b, c));
  }

  lemma FoldLetter(t: string)
    ensures Fold("v" + t) == "v" + Fold(t)
  {
    hide Replace, Lower;
    assert |Fold("v" + t)| == |"v" + Fold(t)|;
  }

  lemma PlainCore(a: nat, b: nat, c: nat)
    ensures Parse(Core(a, b, c)) == Some(SemVer(a, b, c, []))
              && NormalizedVersion(Core(a, b, c)) == Some(Dashed(a, b, c))
    ensures PlainVersion(Core(a, b, c))
  {
    var v := SemVer(a, b, c, []);
    ParseOfPrint(v, None);
    PrintShape(v, None);
    FrontShape(v);
    assert Print(v, None) == Front(v) == Core(a, b, c);
    FoldCore(a, b, c);
    assert CoreText(Core(a, b, c)) == Core(a, b, c) && FoldedTags(Core(a, b, c)) == "";
    assert Dashed(a, b, c) + "" == Dashed(a, b, c);
  }

  lemma ShortCore(a: nat, b: nat, c: nat)
    requires a < 10 && b < 10 && c < 10
    ensures Core(a, b, c) == [DigitChar(a), '.', DigitChar(b), '.', DigitChar(c)]
    ensures Dashed(a, b, c) == [DigitChar(a), '-', DigitChar(b), '-', DigitChar(c)]
  {
    JoinFew(Dec(a), Dec(b), Dec(c), '.');
  }

  /** An instance: version 1.0.0-v2.0.0 of backend a and version 2.0.0 of
      backend a-v1-0-0-pre are one production Service. */
  lemma TwoBackendsOneName()
    ensures ProviderSlugPattern("a") && ProviderSlugPattern("a-v1-0-0-pre")
    ensures Parse("1.0.0-v2.0.0").Some? && Parse("2.0.0").Some?
    ensures ProviderResourceName("a", "1.0.0-v2.0.0", "service", "prod").Ok?
    ensures ProviderResourceName("a", "1.0.0-v2.0.0", "service", "prod")
         == ProviderResourceName("a-v1-0-0-pre", "2.0.0", "service", "prod")
  {
    hide Parse, ProviderResourceName, Core, Dashed, NameLength;
    ShortCore(1, 0, 0);
    ShortCore(2, 0, 0);
    assert Core(1, 0, 0) == "1.0.0" && Core(2, 0, 0) == "2.0.0" && Dashed(1, 0, 0) == "1-0-0";
    var long := Core(1, 0, 0) + "-" + ("v" + Core(2, 0, 0));
    assert long == "1.0.0-v2.0.0" && "a" + "-v" + Dashed(1, 0, 0) + "-pre" == "a-v1-0-0-pre";
    ShortName(long);
    BackendsCollide("a", 1, 0, 0, 2, 0, 0, "service", "prod");
  }

  lemma ShortName(v: string)
    requires |v| <= 20
    ensures NameLength("a", v, "prod") <= MAX_PROVIDER_NAME_LENGTH
  {
    hide Partition;
  }
}
