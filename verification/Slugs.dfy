/** The slugs of the plugins of a DAO, and how one is generated: the process key or the default of the plugin's type,
    with a counter behind it until the DAO does not use it yet. */
module Slugs {
  import opened Keys
  import opened Chronology
  import opened Plugins

  datatype SlugRow = SlugRow(owner: Installation, slug: string)

  predicate HasSlug(slugs: seq<SlugRow>, i: Installation) {
    exists r :: r in slugs && r.owner == i
  }

  /** The unique index on dao, slug and network. */
  predicate IsTaken(slugs: seq<SlugRow>, network: Network, dao: Address, slug: string) {
    exists r :: r in slugs && r.owner.network == network && r.owner.daoAddress == dao && r.slug == slug
  }

  ghost predicate SlugsUnique(slugs: seq<SlugRow>) {
    forall a, b | 0 <= a < b < |slugs| ::
      !(slugs[a].owner.network == slugs[b].owner.network && slugs[a].owner.daoAddress == slugs[b].owner.daoAddress
        && slugs[a].slug == slugs[b].slug)
  }

  function DefaultSlug(t: Option<InterfaceType>): Option<string> {
    match t
    case Some(Spp) => Some("core")
    case Some(LockToVote) => Some("locktovote")
    case Some(TokenVoting) => Some("tokenvoting")
    case Some(Multisig) => Some("multisig")
    case Some(Admin) => Some("admin")
    case Some(Gauge) => Some("gauge")
    case Some(CapitalDistributor) => Some("capitalDistributor")
    case Some(Router) => Some("router")
    case Some(Claimer) => Some("claimer")
    case Some(CrossChainController) => Some("crosschain")
    case Some(Safe) => Some("safe")
    case _ => None
  }

  /** The lower case of a character as far as it has a letter of a to z in it: the Kelvin sign becomes k, and the I with
      a dot an i with a combining dot. */
  function LowerCase(c: char): char {
    if 'A' <= c <= 'Z' then c - 'A' + 'a'
    else if c == '\U{212A}' then 'k'
    else if c == '\U{0130}' then 'i'
    else c
  }

  predicate IsSlugChar(c: char) {
    'a' <= c <= 'z' || '0' <= c <= '9'
  }

  /** What is kept of a character. */
  function Kept(c: char): string {
    if IsSlugChar(LowerCase(c)) then [LowerCase(c)] else []
  }

  /** Lower case, ASCII letters and digits only. */
  function Sanitize(key: string): (slug: string)
    ensures forall c | c in slug :: IsSlugChar(c)
    ensures slug == "" <==> forall c | c in key :: !IsSlugChar(LowerCase(c))
  {
    if key == [] then [] else Kept(key[0]) + Sanitize(key[1..])
  }

  lemma JoinAssociates(a: string, b: string, c: string)
    ensures a + (b + c) == (a + b) + c
  {
  }

  /** Sanitizing goes character by character, in order. */
  lemma {:induction false} SanitizeJoins(left: string, right: string)
    ensures Sanitize(left + right) == Sanitize(left) + Sanitize(right)
  {
    hide Kept, LowerCase, IsSlugChar;
    if left == "" {
      assert left + right == right;
    } else {
      SanitizeJoins(left[1..], right);
      assert (left + right)[1..] == left[1..] + right;
      JoinAssociates(Kept(left[0]), Sanitize(left[1..]), Sanitize(right));
    }
  }

  /** What becomes of one: small letters and digits stay, capitals become small, the two characters of another alphabet
      with an ASCII lower case become that, all others go. */
  lemma SanitizeOne(c: char)
    ensures 'a' <= c <= 'z' || '0' <= c <= '9' ==> Sanitize([c]) == [c]
    ensures 'A' <= c <= 'Z' ==> Sanitize([c]) == [(c as int + 32) as char]
    ensures Sanitize(['\U{212A}']) == "k" && Sanitize(['\U{0130}']) == "i"
    ensures Sanitize([c]) != "" ==>
              'a' <= c <= 'z' || '0' <= c <= '9' || 'A' <= c <= 'Z' || c in {'\U{212A}', '\U{0130}'}
  {
    assert [c][1..] == [];
    assert ['\U{212A}'][1..] == [] && ['\U{0130}'][1..] == [];
  }

  lemma KeepsSlugChar(c: char)
    requires IsSlugChar(c)
    ensures Kept(c) == [c]
  {
  }

  /** A slug is its own sanitized key, so sanitizing twice changes nothing. */
  lemma {:induction false} SanitizeKeepsSlugs(slug: string)
    requires forall c | c in slug :: IsSlugChar(c)
    ensures Sanitize(slug) == slug
  {
    if slug != "" {
      var first, rest := slug[0], slug[1..];
      assert first in slug && forall c | c in rest :: c in slug;
      KeepsSlugChar(first);
      hide Kept, LowerCase, IsSlugChar;
      SanitizeKeepsSlugs(rest);
      assert slug == [first] + rest;
    }
  }

  /** A missing string and an empty one are both falsy. */
  predicate IsUsable(s: Option<string>) {
    s.Some? && s.value != ""
  }

  /** `_parseProcessKey`; a key of other characters only sanitizes to the empty slug. */
  function ParseProcessKey(t: Option<InterfaceType>, processKey: Option<string>): Option<string> {
    if !IsUsable(processKey) then DefaultSlug(t) else Some(Sanitize(processKey.value))
  }

  function Decimal(n: nat): string {
    (if n < 10 then "" else Decimal(n / 10)) + ["0123456789"[n % 10]]
  }

  function Candidate(base: string, suffix: nat): string {
    if suffix == 0 then base else base + "_" + Decimal(suffix)
  }

  /** The number a string of digits stands for. */
  function ValueOf(digits: string): nat {
    if digits == "" then 0
    else
      var last := digits[|digits| - 1];
      10 * ValueOf(digits[..|digits| - 1]) + if '0' <= last <= '9' then (last - '0') as nat else 0
  }

  /** A suffix reads back as its number, and has no leading zero. */
  lemma {:induction false} DecimalReadsBack(n: nat)
    ensures ValueOf(Decimal(n)) == n && Decimal(n) != ""
    ensures forall c | c in Decimal(n) :: '0' <= c <= '9'
    ensures n > 0 ==> Decimal(n)[0] != '0'
  {
    var digit := "0123456789"[n % 10];
    assert (digit - '0') as nat == n % 10;
    if n < 10 {
      assert Decimal(n) == [digit] && [digit][..0] == "";
    } else {
      DecimalReadsBack(n / 10);
      assert Decimal(n) == Decimal(n / 10) + [digit];
      assert Decimal(n)[..|Decimal(n)| - 1] == Decimal(n / 10);
    }
  }

  /** The first candidate is the base itself, the others are the base, an underscore and the number, and no two are
      the same. */
  lemma CandidatesDiffer(base: string, s: nat, t: nat)
    ensures Candidate(base, 0) == base
    ensures s > 0 ==> exists digits :: Candidate(base, s) == base + "_" + digits && ValueOf(digits) == s
    ensures Candidate(base, s) == Candidate(base, t) ==> s == t
  {
    DecimalReadsBack(s);
    DecimalReadsBack(t);
    assert s > 0 ==> Candidate(base, s) == base + "_" + Decimal(s);
    if s > 0 && t > 0 && Candidate(base, s) == Candidate(base, t) {
      assert Candidate(base, s)[|base| + 1..] == Decimal(s) && Candidate(base, t)[|base| + 1..] == Decimal(t);
    }
  }

  const MAX_RETRIES := 300

  /** The slug a plugin is to be created with, before any suffix. */
  function BaseSlug(p: Plugin, processKey: Option<string>): Option<string> {
    var parsed := ParseProcessKey(p.interfaceType, processKey);
    if IsUsable(parsed) then parsed else DefaultSlug(p.interfaceType)
  }

  /** Why no slug can be written: there is no base slug, or the DAO uses all the candidates. */
  predicate IsUnnameable(slugs: seq<SlugRow>, p: Plugin, processKey: Option<string>) {
    var base := BaseSlug(p, processKey);
    base.Some? ==>
      forall s | 0 <= s < MAX_RETRIES :: IsTaken(slugs, p.network, p.daoAddress, Candidate(base.value, s))
  }

  /** `findPluginSlug`: the first row of the plugin. */
  function SlugOf(slugs: seq<SlugRow>, i: Installation): (slug: Option<string>)
    ensures slug.Some? <==> HasSlug(slugs, i)
    ensures slug.Some? ==> SlugRow(i, slug.value) in slugs
  {
    if slugs == [] then None
    else if slugs[0].owner == i then Some(slugs[0].slug)
    else SlugOf(slugs[1..], i)
  }

  /** The first suffix from `from` on whose candidate the DAO does not use. */
  function FreeSuffix(slugs: seq<SlugRow>, p: Plugin, base: string, from: nat := 0): (free: Option<nat>)
    requires from <= MAX_RETRIES
    ensures free.Some? ==> from <= free.value < MAX_RETRIES
    decreases MAX_RETRIES - from
  {
    if from == MAX_RETRIES then None
    else if !IsTaken(slugs, p.network, p.daoAddress, Candidate(base, from)) then Some(from)
    else FreeSuffix(slugs, p, base, from + 1)
  }

  lemma {:induction false} FreeSuffixIsFirst(slugs: seq<SlugRow>, p: Plugin, base: string, from: nat := 0)
    requires from <= MAX_RETRIES
    ensures var free := FreeSuffix(slugs, p, base, from);
            && (free.Some? ==> !IsTaken(slugs, p.network, p.daoAddress, Candidate(base, free.value)))
            && forall s | from <= s < (if free.Some? then free.value else MAX_RETRIES) ::
                 IsTaken(slugs, p.network, p.daoAddress, Candidate(base, s))
    decreases MAX_RETRIES - from
  {
    hide IsTaken, Candidate;
    if from < MAX_RETRIES {
      FreeSuffixIsFirst(slugs, p, base, from + 1);
    }
  }

  /** The slug a plugin without one is given. */
  function FreshSlug(slugs: seq<SlugRow>, p: Plugin, processKey: Option<string>): Option<string> {
    var base := BaseSlug(p, processKey);
    if base.None? then None
    else
      var free := FreeSuffix(slugs, p, base.value);
      if free.None? then None else Some(Candidate(base.value, free.value))
  }

  /** What `generateSlug` answers. */
  function Generate(slugs: seq<SlugRow>, p: Plugin, processKey: Option<string>): Option<string> {
    var existing := SlugOf(slugs, InstallationOf(p));
    if existing.Some? then existing else FreshSlug(slugs, p, processKey)
  }

  /** And the collection it leaves. */
  function AfterGenerate(slugs: seq<SlugRow>, p: Plugin, processKey: Option<string>): seq<SlugRow> {
    var slug := Generate(slugs, p, processKey);
    if HasSlug(slugs, InstallationOf(p)) || slug.None? then slugs
    else slugs + [SlugRow(InstallationOf(p), slug.value)]
  }

  /** A generation keeps every slug and the unique index, answers a slug the plugin then has, and fails exactly when the
      plugin has none and none can be written. */
  lemma GenerateResult(slugs: seq<SlugRow>, p: Plugin, processKey: Option<string>)
    ensures var after, slug := AfterGenerate(slugs, p, processKey), Generate(slugs, p, processKey);
            && slugs <= after && |after| <= |slugs| + 1
            && (SlugsUnique(slugs) ==> SlugsUnique(after))
            && (slug.Some? ==> SlugRow(InstallationOf(p), slug.value) in after)
            && (slug.None? <==> !HasSlug(slugs, InstallationOf(p)) && IsUnnameable(slugs, p, processKey))
    ensures forall i :: HasSlug(AfterGenerate(slugs, p, processKey), i) <==>
                        HasSlug(slugs, i) || (i == InstallationOf(p) && Generate(slugs, p, processKey).Some?)
  {
    hide HasSlug, SlugsUnique, IsTaken, Candidate, BaseSlug;
    var owner, slug := InstallationOf(p), Generate(slugs, p, processKey);
    var base := BaseSlug(p, processKey);
    if base.Some? {
      FreeSuffixIsFirst(slugs, p, base.value);
    }
    hide FreeSuffix;
    if !HasSlug(slugs, owner) && slug.Some? {
      AddedSlug(slugs, owner, slug.value);
    }
  }

  lemma ServesOne(slugs: seq<SlugRow>, p: Plugin, key: Option<string>, i: Installation)
    ensures HasSlug(AfterGenerate(slugs, p, key), i) <==>
            HasSlug(slugs, i) || (i == InstallationOf(p) && Generate(slugs, p, key).Some?)
  {
    hide HasSlug, Generate, AfterGenerate, SlugsUnique, IsUnnameable;
    GenerateResult(slugs, p, key);
  }

  /** Slugs are only added, so what is taken stays taken. */
  lemma StaysUnnameable(slugs: seq<SlugRow>, after: seq<SlugRow>, p: Plugin, processKey: Option<string>)
    requires slugs <= after && IsUnnameable(slugs, p, processKey)
    ensures IsUnnameable(after, p, processKey)
  {
    var base := BaseSlug(p, processKey);
    if base.Some? {
      forall s | 0 <= s < MAX_RETRIES ensures IsTaken(after, p.network, p.daoAddress, Candidate(base.value, s)) {
        TakenStays(slugs, after, p.network, p.daoAddress, Candidate(base.value, s));
      }
    }
  }

  lemma TakenStays(slugs: seq<SlugRow>, after: seq<SlugRow>, network: Network, dao: Address, slug: string)
    requires slugs <= after && IsTaken(slugs, network, dao, slug)
    ensures IsTaken(after, network, dao, slug)
  {
    var r :| r in slugs && r.owner.network == network && r.owner.daoAddress == dao && r.slug == slug;
    assert r in after;
  }

  /** The slugs of one DAO. */
  ghost function SlugsOf(slugs: seq<SlugRow>, network: Network, dao: Address): set<string> {
    set r | r in slugs && r.owner.network == network && r.owner.daoAddress == dao :: r.slug
  }

  /** A plugin with a base slug is refused a slug only by a DAO that has three hundred. */
  lemma UnnameableNeedsMany(slugs: seq<SlugRow>, p: Plugin, processKey: Option<string>)
    requires IsUnnameable(slugs, p, processKey) && BaseSlug(p, processKey).Some?
    ensures |SlugsOf(slugs, p.network, p.daoAddress)| >= 300
  {
    var base, taken := BaseSlug(p, processKey).value, SlugsOf(slugs, p.network, p.daoAddress);
    forall s | 0 <= s < 300 ensures Candidate(base, s) in taken {
      assert IsTaken(slugs, p.network, p.daoAddress, Candidate(base, s));
    }
    ManyCandidates(taken, base, 300);
  }

  lemma {:induction false} ManyCandidates(taken: set<string>, base: string, count: nat)
    requires forall s | 0 <= s < count :: Candidate(base, s) in taken
    ensures |taken| >= count
  {
    if count > 0 {
      var last := Candidate(base, count - 1);
      forall s | 0 <= s < count - 1 ensures Candidate(base, s) in taken - {last} {
        CandidatesDiffer(base, s, count - 1);
      }
      ManyCandidates(taken - {last}, base, count - 1);
    }
  }

  // ---- the same in the fields of the documents ----

  ghost predicate OwnedBy(r: SlugRow, p: Plugin) {
    r.owner.network == p.network && r.owner.daoAddress == p.daoAddress && r.owner.address == p.address
  }

  ghost predicate IsFirstOwned(slugs: seq<SlugRow>, p: Plugin, n: int) {
    0 <= n < |slugs| && OwnedBy(slugs[n], p) && forall m | 0 <= m < n :: !OwnedBy(slugs[m], p)
  }

  /** The slug before any suffix: the process key as far as it has letters and digits, else the default. */
  ghost predicate IsBase(base: string, p: Plugin, processKey: Option<string>) {
    if processKey.Some? && Sanitize(processKey.value) != "" then base == Sanitize(processKey.value)
    else DefaultSlug(p.interfaceType) == Some(base)
  }

  /** The first candidate no slug of the DAO is equal to. */
  ghost predicate IsFirstFree(slugs: seq<SlugRow>, p: Plugin, base: string, s: nat) {
    && s < 300 && Candidate(base, s) !in SlugsOf(slugs, p.network, p.daoAddress)
    && forall t | 0 <= t < s :: Candidate(base, t) in SlugsOf(slugs, p.network, p.daoAddress)
  }

  /** What a generation answers and adds: nothing and the plugin's first slug if it has one; else one row of the plugin
      with the first free candidate; else nothing at all. */
  ghost predicate IsGenerated(
    slugs: seq<SlugRow>, after: seq<SlugRow>, p: Plugin, processKey: Option<string>, slug: Option<string>)
  {
    && (forall n | IsFirstOwned(slugs, p, n) :: after == slugs && slug == Some(slugs[n].slug))
    && ((forall r | r in slugs :: !OwnedBy(r, p)) ==>
          && (forall base, s | IsBase(base, p, processKey) && IsFirstFree(slugs, p, base, s) ::
                && slug == Some(Candidate(base, s))
                && after == slugs + [SlugRow(Installation(p.network, p.daoAddress, p.address), Candidate(base, s))])
          && ((forall base, s | IsBase(base, p, processKey) :: !IsFirstFree(slugs, p, base, s)) ==>
                slug == None && after == slugs))
  }

  lemma {:induction false} FirstSlugIsFound(slugs: seq<SlugRow>, p: Plugin, n: nat)
    requires IsFirstOwned(slugs, p, n)
    ensures SlugOf(slugs, InstallationOf(p)) == Some(slugs[n].slug)
  {
    assert OwnedBy(slugs[0], p) <==> slugs[0].owner == InstallationOf(p);
    if n > 0 {
      assert forall m | 0 <= m < n :: slugs[1..][m] == slugs[m + 1];
      FirstSlugIsFound(slugs[1..], p, n - 1);
    }
  }

  lemma OwnedExactly(slugs: seq<SlugRow>, p: Plugin)
    ensures HasSlug(slugs, InstallationOf(p)) <==> exists r :: r in slugs && OwnedBy(r, p)
  {
    assert forall r: SlugRow :: OwnedBy(r, p) <==> r.owner == InstallationOf(p);
  }

  lemma BaseExactly(p: Plugin, processKey: Option<string>, base: string)
    ensures BaseSlug(p, processKey) == Some(base) <==> IsBase(base, p, processKey)
  {
    if processKey == Some("") {
      assert Sanitize("") == "";
    }
  }

  lemma FreeExactly(slugs: seq<SlugRow>, p: Plugin, base: string, s: nat)
    ensures FreeSuffix(slugs, p, base) == Some(s) <==> IsFirstFree(slugs, p, base, s)
  {
    hide IsTaken, SlugsOf, Candidate, FreeSuffix;
    var free := FreeSuffix(slugs, p, base);
    FreeSuffixIsFirst(slugs, p, base);
    if free.Some? {
      TakenExactly(slugs, p.network, p.daoAddress, Candidate(base, free.value));
    }
    forall t | 0 <= t < (if free.Some? then free.value else 300)
      ensures Candidate(base, t) in SlugsOf(slugs, p.network, p.daoAddress)
    {
      TakenExactly(slugs, p.network, p.daoAddress, Candidate(base, t));
    }
  }

  lemma TakenExactly(slugs: seq<SlugRow>, network: Network, dao: Address, slug: string)
    ensures IsTaken(slugs, network, dao, slug) <==> slug in SlugsOf(slugs, network, dao)
  {
  }

  lemma GeneratedExactly(slugs: seq<SlugRow>, p: Plugin, processKey: Option<string>)
    ensures IsGenerated(slugs, AfterGenerate(slugs, p, processKey), p, processKey, Generate(slugs, p, processKey))
  {
    forall n | IsFirstOwned(slugs, p, n)
      ensures SlugOf(slugs, InstallationOf(p)) == Some(slugs[n].slug)
    {
      FirstSlugIsFound(slugs, p, n);
    }
    OwnedExactly(slugs, p);
    var base := BaseSlug(p, processKey);
    forall b ensures base == Some(b) <==> IsBase(b, p, processKey) {
      BaseExactly(p, processKey, b);
    }
    if base.Some? {
      forall s: nat ensures FreeSuffix(slugs, p, base.value) == Some(s) <==> IsFirstFree(slugs, p, base.value, s) {
        FreeExactly(slugs, p, base.value, s);
      }
    }
    hide SlugOf, HasSlug, OwnedBy, IsFirstOwned, BaseSlug, IsBase, FreeSuffix, IsFirstFree, Candidate;
  }

  class SlugCollection {
    var rows: seq<SlugRow>

    constructor (rows: seq<SlugRow>)
      ensures this.rows == rows
    {
      this.rows := rows;
    }

    /** `generateSlug`: an existing slug stays, otherwise candidates are tried until the unique index accepts one. */
    method GenerateSlug(p: Plugin, processKey: Option<string>) returns (slug: Option<string>)
      modifies this
      ensures slug == Generate(old(rows), p, processKey)
      ensures rows == AfterGenerate(old(rows), p, processKey)
      ensures IsGenerated(old(rows), rows, p, processKey, slug)
    {
      GeneratedExactly(rows, p, processKey);
      hide IsGenerated;
      hide HasSlug, IsTaken, Candidate, DefaultSlug, ParseProcessKey, IsUsable;
      var owner := InstallationOf(p);
      slug := SlugOf(rows, owner);
      if slug.Some? {
        return;
      }
      var parsed := ParseProcessKey(p.interfaceType, processKey);
      var base := if IsUsable(parsed) then parsed else DefaultSlug(p.interfaceType);
      if base.None? {
        return;
      }
      var suffix := 0;
      while suffix < MAX_RETRIES
        invariant suffix <= MAX_RETRIES
        invariant FreeSuffix(rows, p, base.value) == FreeSuffix(rows, p, base.value, suffix)
        invariant rows == old(rows) && slug.None?
      {
        var candidate := Candidate(base.value, suffix);
        if !IsTaken(rows, p.network, p.daoAddress, candidate) {
          slug := Some(candidate);
          rows := rows + [SlugRow(owner, candidate)];
          return;
        }
        suffix := suffix + 1;
      }
    }
  }

  lemma AddedSlug(slugs: seq<SlugRow>, owner: Installation, slug: string)
    requires !IsTaken(slugs, owner.network, owner.daoAddress, slug)
    ensures SlugsUnique(slugs) ==> SlugsUnique(slugs + [SlugRow(owner, slug)])
    ensures forall i :: HasSlug(slugs + [SlugRow(owner, slug)], i) <==> HasSlug(slugs, i) || i == owner
  {
    var row := SlugRow(owner, slug);
    assert forall r :: r in slugs + [row] <==> r in slugs || r == row;
    forall i ensures HasSlug(slugs + [row], i) <==> HasSlug(slugs, i) || i == owner {
      assert row in slugs + [row];
      if r :| r in slugs && r.owner == i {
        assert r in slugs + [row];
      }
    }
    forall a | 0 <= a < |slugs|
      ensures !(slugs[a].owner.network == owner.network && slugs[a].owner.daoAddress == owner.daoAddress
                && slugs[a].slug == slug)
    {
      assert slugs[a] in slugs;
    }
  }

  // ---- several plugins in turn ----

  ghost predicate PlansFor(planned: seq<Plugin>, i: Installation) {
    exists p :: p in planned && InstallationOf(p) == i
  }

  /** The slugs after generating the planned ones in turn. */
  function GenerateAll(slugs: seq<SlugRow>, planned: seq<Plugin>, keys: Plugin -> Option<string>): seq<SlugRow> {
    if planned == [] then slugs
    else
      var init, p := planned[..|planned| - 1], planned[|planned| - 1];
      AfterGenerate(GenerateAll(slugs, init, keys), p, keys(p))
  }

  /** How many of the generations answered a slug. */
  function CreatedBy(slugs: seq<SlugRow>, planned: seq<Plugin>, keys: Plugin -> Option<string>): (created: nat)
    ensures created <= |planned|
  {
    if planned == [] then 0
    else
      var init, p := planned[..|planned| - 1], planned[|planned| - 1];
      CreatedBy(slugs, init, keys)
      + if Generate(GenerateAll(slugs, init, keys), p, keys(p)).Some? then 1 else 0
  }

  ghost predicate HasSlugAfterTurn(
    slugs: seq<SlugRow>, planned: seq<Plugin>, keys: Plugin -> Option<string>, n: nat)
  {
    n < |planned| && exists r :: r in GenerateAll(slugs, planned[..n + 1], keys) && OwnedBy(r, planned[n])
  }

  ghost function HaveSlugAfterTurn(
    slugs: seq<SlugRow>, planned: seq<Plugin>, keys: Plugin -> Option<string>, bound: nat): set<nat>
  {
    set n | 0 <= n < bound && HasSlugAfterTurn(slugs, planned, keys, n)
  }

  /** The count is of the planned rows whose plugin has a slug right after its turn. */
  lemma {:induction false} CreatedExactly(
    slugs: seq<SlugRow>, planned: seq<Plugin>, keys: Plugin -> Option<string>, bound: nat)
    requires bound <= |planned|
    ensures CreatedBy(slugs, planned[..bound], keys) == |HaveSlugAfterTurn(slugs, planned, keys, bound)|
  {
    hide HasSlugAfterTurn, GenerateAll;
    if bound == 0 {
      assert HaveSlugAfterTurn(slugs, planned, keys, 0) == {};
    } else {
      CreatedExactly(slugs, planned, keys, bound - 1);
      CreatedNext(slugs, planned, keys, bound - 1);
      TurnNext(slugs, planned, keys, bound - 1);
      hide *;
    }
  }

  lemma CreatedNext(slugs: seq<SlugRow>, planned: seq<Plugin>, keys: Plugin -> Option<string>, n: nat)
    requires n < |planned|
    ensures CreatedBy(slugs, planned[..n + 1], keys) ==
            CreatedBy(slugs, planned[..n], keys) + if HasSlugAfterTurn(slugs, planned, keys, n) then 1 else 0
  {
    assert planned[..n + 1][..n] == planned[..n];
    AnsweredExactly(slugs, planned, keys, n);
    hide Generate, HasSlugAfterTurn, GenerateAll;
  }

  lemma TurnNext(slugs: seq<SlugRow>, planned: seq<Plugin>, keys: Plugin -> Option<string>, n: nat)
    ensures |HaveSlugAfterTurn(slugs, planned, keys, n + 1)| ==
            |HaveSlugAfterTurn(slugs, planned, keys, n)| + if HasSlugAfterTurn(slugs, planned, keys, n) then 1 else 0
  {
    var before := HaveSlugAfterTurn(slugs, planned, keys, n);
    hide HasSlugAfterTurn;
    assert HaveSlugAfterTurn(slugs, planned, keys, n + 1)
        == if HasSlugAfterTurn(slugs, planned, keys, n) then before + {n} else before;
  }

  lemma AnsweredExactly(slugs: seq<SlugRow>, planned: seq<Plugin>, keys: Plugin -> Option<string>, n: nat)
    requires n < |planned|
    ensures HasSlugAfterTurn(slugs, planned, keys, n) <==>
            Generate(GenerateAll(slugs, planned[..n], keys), planned[n], keys(planned[n])).Some?
  {
    var before, p := GenerateAll(slugs, planned[..n], keys), planned[n];
    assert planned[..n + 1][..n] == planned[..n];
    hide HasSlug, Generate, AfterGenerate, SlugsUnique, IsUnnameable;
    ServesOne(before, p, keys(p), InstallationOf(p));
    GenerateResult(before, p, keys(p));
    OwnedExactly(AfterGenerate(before, p, keys(p)), p);
  }

  /** No slug is lost and none is doubled within a DAO. */
  lemma {:induction false} GenerateAllKeeps(slugs: seq<SlugRow>, planned: seq<Plugin>, keys: Plugin -> Option<string>)
    ensures var after := GenerateAll(slugs, planned, keys);
            slugs <= after && (SlugsUnique(slugs) ==> SlugsUnique(after))
  {
    if planned != [] {
      hide SlugsUnique, Generate, AfterGenerate, IsUnnameable, HasSlug;
      var init, p := planned[..|planned| - 1], planned[|planned| - 1];
      GenerateAllKeeps(slugs, init, keys);
      GenerateResult(GenerateAll(slugs, init, keys), p, keys(p));
    }
  }

  lemma {:induction false} OthersAreNotServed(
    slugs: seq<SlugRow>, planned: seq<Plugin>, keys: Plugin -> Option<string>, i: Installation)
    requires forall p | p in planned :: InstallationOf(p) != i
    ensures HasSlug(GenerateAll(slugs, planned, keys), i) ==> HasSlug(slugs, i)
  {
    if planned != [] {
      hide HasSlug, Generate, AfterGenerate, InstallationOf;
      var init, p := planned[..|planned| - 1], planned[|planned| - 1];
      assert p in planned && forall q | q in init :: q in planned;
      ServesOne(GenerateAll(slugs, init, keys), p, keys(p), i);
      OthersAreNotServed(slugs, init, keys, i);
    }
  }

  /** No plugin without a planned row gains a slug, and none loses one. */
  lemma GenerateAllServes(
    slugs: seq<SlugRow>, planned: seq<Plugin>, keys: Plugin -> Option<string>, i: Installation)
    ensures var after := GenerateAll(slugs, planned, keys);
            && (HasSlug(slugs, i) ==> HasSlug(after, i))
            && (HasSlug(after, i) ==> HasSlug(slugs, i) || PlansFor(planned, i))
  {
    var after := GenerateAll(slugs, planned, keys);
    hide GenerateAll;
    GenerateAllKeeps(slugs, planned, keys);
    if r :| r in slugs && r.owner == i {
      assert r in after;
    }
    if !PlansFor(planned, i) {
      OthersAreNotServed(slugs, planned, keys, i);
    }
  }

  /** A planned plugin is left without a slug only when its DAO uses every candidate, and never when the count says
      that all were created. */
  lemma {:induction false} LeftWithoutSlug(
    slugs: seq<SlugRow>, planned: seq<Plugin>, keys: Plugin -> Option<string>, q: Plugin)
    requires q in planned
    ensures var after := GenerateAll(slugs, planned, keys);
            !HasSlug(after, InstallationOf(q)) ==>
              && IsUnnameable(after, q, keys(q))
              && CreatedBy(slugs, planned, keys) < |planned|
  {
    hide HasSlug, SlugsUnique, Generate, AfterGenerate, IsUnnameable;
    var init, p := planned[..|planned| - 1], planned[|planned| - 1];
    var before, key := GenerateAll(slugs, init, keys), keys(p);
    var after := AfterGenerate(before, p, key);
    GenerateResult(before, p, key);
    if !HasSlug(after, InstallationOf(q)) {
      if q in init {
        LeftWithoutSlug(slugs, init, keys, q);
      } else {
        assert q == p;
      }
      StaysUnnameable(before, after, q, keys(q));
    }
  }

  method GenerateSlugs(slugs: SlugCollection, planned: seq<Plugin>, keys: Plugin -> Option<string>)
    returns (created: nat)
    modifies slugs
    ensures slugs.rows == GenerateAll(old(slugs.rows), planned, keys)
    ensures created == CreatedBy(old(slugs.rows), planned, keys)
  {
    created := 0;
    for n := 0 to |planned|
      invariant slugs.rows == GenerateAll(old(slugs.rows), planned[..n], keys)
      invariant created == CreatedBy(old(slugs.rows), planned[..n], keys)
    {
      assert planned[..n + 1][..n] == planned[..n];
      var slug := slugs.GenerateSlug(planned[n], keys(planned[n]));
      if slug.Some? {
        created := created + 1;
      }
    }
    assert planned[..|planned|] == planned;
  }
}
