/** The role gate of the permissions middleware: role names map to levels, and
    a gate built from a list of allowed roles admits a request whose role level
    reaches the HIGHEST level in the list. */
module Roles {
  import opened Wrappers
  import opened Http

  /** The role table: owner 4, admin 3, member 2, viewer 1, anything else 0. */
  function LevelOf(role: string): (level: nat)
    ensures level <= 4
    ensures level == 4 <==> role == "owner"
    ensures level == 3 <==> role == "admin"
    ensures level == 2 <==> role == "member"
    ensures level == 1 <==> role == "viewer"
  {
    if role == "owner" then 4
    else if role == "admin" then 3
    else if role == "member" then 2
    else if role == "viewer" then 1
    else 0
  }

  /** The bar a gate sets: the maximum level over the allowed list. The maximum
      of an empty list is minus infinity, which every level meets; -1 stands
      for it here since levels are never negative. */
  function RequiredLevel(allowed: seq<string>): (bar: int)
    ensures forall i :: 0 <= i < |allowed| ==> LevelOf(allowed[i]) <= bar
    ensures |allowed| == 0 ==> bar < 0
    ensures |allowed| > 0 ==> exists i :: 0 <= i < |allowed| && bar == LevelOf(allowed[i])
  {
    if |allowed| == 0 then -1
    else
      var rest := RequiredLevel(allowed[1..]);
      if LevelOf(allowed[0]) >= rest then LevelOf(allowed[0]) else rest
  }

  /** A request carries a role when one was set and it is not the empty string. */
  predicate HasRole(userRole: Option<string>) {
    userRole.Some? && userRole.value != ""
  }

  /** The gate `requireRole(allowed)`: a request without a role is refused
      outright; otherwise it passes exactly when its level is at least the level
      of EVERY allowed role, and a refusal reports the allowed list and the
      caller's role. On success the caller's role is handed on. */
  function RequireRole(allowed: seq<string>, userRole: Option<string>): (r: Result<string, Failure>)
    ensures r.Success? <==>
              HasRole(userRole) && forall i :: 0 <= i < |allowed| ==> LevelOf(allowed[i]) <= LevelOf(userRole.value)
    ensures !HasRole(userRole) ==> r == Failure(Forbidden("Access denied"))
    ensures HasRole(userRole) && r.Failure? ==> r.error == InsufficientRole(allowed, userRole.value)
    ensures r.Success? ==> r.value == userRole.value
  {
    if !HasRole(userRole) then Failure(Forbidden("Access denied"))
    else if LevelOf(userRole.value) >= RequiredLevel(allowed) then Success(userRole.value)
    else Failure(InsufficientRole(allowed, userRole.value))
  }

  const OwnerRoles: seq<string> := ["owner"]
  const AdminRoles: seq<string> := ["owner", "admin"]
  const MemberRoles: seq<string> := ["owner", "admin", "member"]

  /** `requireOwner`: only the owner role passes. */
  function RequireOwner(userRole: Option<string>): (r: Result<string, Failure>)
    ensures r.Success? <==> userRole == Some("owner")
  {
    RequireRole(OwnerRoles, userRole)
  }

  /** `requireAdmin`, nominally "owner or admin": because the bar is the
      owner's level, admins are refused and only the owner role passes. */
  function RequireAdmin(userRole: Option<string>): (r: Result<string, Failure>)
    ensures r.Success? <==> userRole == Some("owner")
    ensures userRole == Some("admin") ==> r == Failure(InsufficientRole(AdminRoles, "admin"))
  {
    assert LevelOf(AdminRoles[0]) == 4;
    RequireRole(AdminRoles, userRole)
  }

  /** `requireMember`, nominally "owner, admin or member": again only the
      owner role passes, and members and admins are refused. */
  function RequireMember(userRole: Option<string>): (r: Result<string, Failure>)
    ensures r.Success? <==> userRole == Some("owner")
    ensures userRole == Some("member") ==> r == Failure(InsufficientRole(MemberRoles, "member"))
    ensures userRole == Some("admin") ==> r == Failure(InsufficientRole(MemberRoles, "admin"))
  {
    assert LevelOf(MemberRoles[0]) == 4;
    RequireRole(MemberRoles, userRole)
  }

  /** The gate is the literal `userLevel >= Math.max(...)` comparison. */
  lemma GateIsMaxRule(allowed: seq<string>, role: string)
    ensures RequireRole(allowed, Some(role)).Success? <==> role != "" && LevelOf(role) >= RequiredLevel(allowed)
  {
    if |allowed| > 0 && role != "" && RequireRole(allowed, Some(role)).Success? {
      var i :| 0 <= i < |allowed| && RequiredLevel(allowed) == LevelOf(allowed[i]);
      assert LevelOf(allowed[i]) <= LevelOf(role);
    }
  }

  /** Monotonicity: a role at least as high as one that passes a gate passes it too. */
  lemma GateMonotone(allowed: seq<string>, weaker: string, stronger: string)
    requires RequireRole(allowed, Some(weaker)).Success?
    requires stronger != "" && LevelOf(stronger) >= LevelOf(weaker)
    ensures RequireRole(allowed, Some(stronger)).Success?
  {
  }
}
