/**
 * Resolving the caller's tenant from the authenticated principal:
 * `HttpTenantContext.TenantId` and the controllers' private `GetTenantId`.
 */
module Tenancy {
  import opened Wrappers
  import opened Guids
  import Text
  import opened Sequences

  datatype Claim = Claim(claimType: string, value: string)

  /** The authenticated user of a request, as a list of claims in token order. */
  datatype Principal = Principal(claims: seq<Claim>)

  datatype HttpContext = HttpContext(user: Principal)

  const TenantClaim := "TenantId"

  /** Claim types are compared ordinally, ignoring case. */
  predicate SameClaimType(a: string, b: string) {
    Text.ToUpper(a) == Text.ToUpper(b)
  }

  predicate HasClaimType(c: Claim, claimType: string) {
    SameClaimType(c.claimType, claimType)
  }

  /** `ClaimsPrincipal.FindFirst(claimType)?.Value`. */
  function FindFirst(user: Principal, claimType: string): (r: Option<string>)
    ensures r.None? <==> forall c | c in user.claims :: !SameClaimType(c.claimType, claimType)
    ensures r.Some? ==> exists i | 0 <= i < |user.claims| ::
      && user.claims[i].value == r.value && SameClaimType(user.claims[i].claimType, claimType)
      && forall k | 0 <= k < i :: !SameClaimType(user.claims[k].claimType, claimType)
  {
    var c := First(user.claims, HasClaimType, claimType);
    if c.Some? then Some(c.value.value) else None
  }

  /** `HttpTenantContext.TenantId`: no HTTP context, no claim or an unparseable claim all give None. */
  function ContextTenantId(context: Option<HttpContext>): (r: Option<Guid>)
    ensures context.None? ==> r.None?
    ensures r.Some? <==>
      context.Some? && FindFirst(context.value.user, TenantClaim).Some?
      && IsDFormat(FindFirst(context.value.user, TenantClaim).value)
  {
    if context.None? then None
    else TryParse(FindFirst(context.value.user, TenantClaim))
  }

  /** `GetTenantId()` of `AuthController` and `BranchesController`. */
  function ClaimTenantId(user: Principal): (r: Option<Guid>)
    ensures r.Some? <==> FindFirst(user, TenantClaim).Some? && IsDFormat(FindFirst(user, TenantClaim).value)
    ensures r.Some? ==> forall i | 0 <= i < 32 ::
      HexValue(FindFirst(user, TenantClaim).value[DigitPosition(i)]) == Some(r.value[i])
  {
    TryParse(FindFirst(user, TenantClaim))
  }

  lemma NoContextNoTenant()
    ensures ContextTenantId(None) == None
  {
  }

  /** The tenant context and the controllers' helpers resolve the same tenant for a request. */
  lemma ResolversAgree(user: Principal)
    ensures ContextTenantId(Some(HttpContext(user))) == ClaimTenantId(user)
  {
  }

  lemma NoClaimNoTenant(user: Principal)
    requires forall c | c in user.claims :: !SameClaimType(c.claimType, TenantClaim)
    ensures ClaimTenantId(user) == None
  {
  }

  lemma UnparseableClaimNoTenant(user: Principal)
    requires FindFirst(user, TenantClaim).Some? && !IsDFormat(FindFirst(user, TenantClaim).value)
    ensures ClaimTenantId(user) == None
  {
  }

  /** A first TenantId claim holding the printed form of g resolves to g, whatever follows it. */
  lemma ClaimOfTenant(before: seq<Claim>, g: Guid, after: seq<Claim>)
    requires forall c | c in before :: !SameClaimType(c.claimType, TenantClaim)
    ensures ClaimTenantId(Principal(before + [Claim(TenantClaim, Format(g))] + after)) == Some(g)
  {
    var claims := before + [Claim(TenantClaim, Format(g))] + after;
    assert claims[|before|] == Claim(TenantClaim, Format(g));
    assert HasClaimType(claims[|before|], TenantClaim);
    var r := FindFirst(Principal(claims), TenantClaim);
    var i :| 0 <= i < |claims| && claims[i].value == r.value && SameClaimType(claims[i].claimType, TenantClaim)
      && forall k | 0 <= k < i :: !SameClaimType(claims[k].claimType, TenantClaim);
    assert forall k | 0 <= k < |before| :: claims[k] == before[k];
    assert i == |before|;
    ParseFormat(g);
  }
}
