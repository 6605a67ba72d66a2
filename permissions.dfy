/**
 * `PermissionService` (backend/app/services/permissions.py): per-document
 * permission lists with a three-level hierarchy, and password-protected,
 * optionally expiring share links.
 *
 * The grant time and the clock used for expiry are whole numbers passed in,
 * and a share link's token is passed in (the source draws a random one).
 */
module Permissions {
  import opened Common

  datatype Permission = Permission(userId: string, documentId: string, level: string, grantedBy: string, grantedAt: int)

  datatype ShareLink = ShareLink(
    documentId: string,
    token: string,
    expiresAt: Option<int>,
    password: Option<string>,
    permissionLevel: string)

  // ---------------------------------------------------------------------------
  // The level hierarchy
  // ---------------------------------------------------------------------------

  /** A level's rank: admin 3, write 2, read 1, anything else 0. */
  function Rank(level: string): (r: nat)
    ensures r <= 3
    ensures r == 0 <==> level != "admin" && level != "write" && level != "read"
  {
    if level == "admin" then 3 else if level == "write" then 2 else if level == "read" then 1 else 0
  }

  /** `_is_level_sufficient`: the user's level ranks at least as high as the required one. */
  predicate IsLevelSufficient(userLevel: string, requiredLevel: string) {
    Rank(userLevel) >= Rank(requiredLevel)
  }

  /**
   * The hierarchy is a total preorder with admin on top and unknown levels at
   * the bottom: every level satisfies itself; satisfaction chains; of two
   * levels one satisfies the other; admin satisfies every requirement; every
   * level satisfies an unknown requirement; an unknown level satisfies only
   * unknown requirements; and read does not satisfy write, nor write admin.
   */
  lemma LevelHierarchy(a: string, b: string, c: string)
    ensures IsLevelSufficient(a, a)
    ensures IsLevelSufficient(a, b) && IsLevelSufficient(b, c) ==> IsLevelSufficient(a, c)
    ensures IsLevelSufficient(a, b) || IsLevelSufficient(b, a)
    ensures IsLevelSufficient("admin", b)
    ensures Rank(b) == 0 ==> IsLevelSufficient(a, b)
    ensures Rank(a) == 0 ==> (IsLevelSufficient(a, b) <==> Rank(b) == 0)
    ensures !IsLevelSufficient("read", "write") && !IsLevelSufficient("write", "admin")
  {
  }

  // ---------------------------------------------------------------------------
  // Permission lists
  // ---------------------------------------------------------------------------

  /** `permissions.get(document_id, [])`. */
  function PermissionsOf(m: map<string, seq<Permission>>, documentId: string): seq<Permission> {
    if documentId in m then m[documentId] else []
  }

  /** The user's first entry in the list, if any. */
  function FirstGrant(ps: seq<Permission>, userId: string): (r: Option<Permission>)
    ensures r.None? <==> forall k :: 0 <= k < |ps| ==> ps[k].userId != userId
    ensures r.Some? ==> exists k :: 0 <= k < |ps| && ps[k] == r.value && r.value.userId == userId &&
                          forall j :: 0 <= j < k ==> ps[j].userId != userId
    decreases |ps|
  {
    if ps == [] then None
    else if ps[0].userId == userId then Some(ps[0])
    else
      var r := FirstGrant(ps[1..], userId);
      if r.Some? then
        var k :| 0 <= k < |ps[1..]| && ps[1..][k] == r.value && r.value.userId == userId &&
                 forall j :: 0 <= j < k ==> ps[1..][j].userId != userId;
        assert ps[k + 1] == r.value;
        r
      else r
  }

  /** `check_permission` on a list: the user's first entry alone decides. */
  predicate Allows(ps: seq<Permission>, userId: string, requiredLevel: string) {
    var first := FirstGrant(ps, userId);
    first.Some? && IsLevelSufficient(first.value.level, requiredLevel)
  }

  /** The list without the user's entries, the others in their order. */
  function Without(ps: seq<Permission>, userId: string): (r: seq<Permission>)
    ensures |r| <= |ps|
    ensures forall p :: p in r ==> p in ps && p.userId != userId
    ensures forall p :: p in ps && p.userId != userId ==> p in r
    decreases |ps|
  {
    if ps == [] then []
    else (if ps[0].userId != userId then [ps[0]] else []) + Without(ps[1..], userId)
  }

  /**
   * Filtering a list with one more grant filters the old list and keeps the new
   * grant last when it is not the user's: the kept grants stay in their order,
   * each as often as it was granted.
   */
  lemma {:induction false} WithoutAppend(ps: seq<Permission>, p: Permission, userId: string)
    ensures Without(ps + [p], userId) == Without(ps, userId) + (if p.userId != userId then [p] else [])
    decreases |ps|
  {
    if ps == [] {
      assert ps + [p] == [p];
      assert Without([p], userId) == (if p.userId != userId then [p] else []) + Without([], userId);
    } else {
      assert (ps + [p])[1..] == ps[1..] + [p];
      WithoutAppend(ps[1..], p, userId);
    }
  }

  /** A grant appended after the user's first entry changes no decision for that user. */
  lemma {:induction false} LaterGrantDoesNotUpgrade(ps: seq<Permission>, p: Permission, userId: string, requiredLevel: string)
    requires FirstGrant(ps, userId).Some?
    ensures FirstGrant(ps + [p], userId) == FirstGrant(ps, userId)
    ensures Allows(ps + [p], userId, requiredLevel) == Allows(ps, userId, requiredLevel)
    decreases |ps|
  {
    assert ps != [];
    if ps[0].userId != userId {
      assert (ps + [p])[1..] == ps[1..] + [p];
      LaterGrantDoesNotUpgrade(ps[1..], p, userId, requiredLevel);
    }
  }

  /** The first grant for a user with no entry yet decides by its own level. */
  lemma {:induction false} FirstGrantDecides(ps: seq<Permission>, p: Permission, requiredLevel: string)
    requires FirstGrant(ps, p.userId).None?
    ensures FirstGrant(ps + [p], p.userId) == Some(p)
    ensures Allows(ps + [p], p.userId, requiredLevel) == IsLevelSufficient(p.level, requiredLevel)
    decreases |ps|
  {
    if ps != [] {
      assert (ps + [p])[1..] == ps[1..] + [p];
      FirstGrantDecides(ps[1..], p, requiredLevel);
    }
  }

  /** After revoking, the user has no entry left, so no check for them passes. */
  lemma {:induction false} RevokedDenies(ps: seq<Permission>, userId: string, requiredLevel: string)
    ensures FirstGrant(Without(ps, userId), userId).None?
    ensures !Allows(Without(ps, userId), userId, requiredLevel)
    decreases |ps|
  {
    var r := Without(ps, userId);
    forall k | 0 <= k < |r| ensures r[k].userId != userId {
      assert r[k] in r;
    }
  }

  /** Revoking keeps every other user's decisions. */
  lemma {:induction false} RevokeKeepsOthers(ps: seq<Permission>, userId: string, other: string)
    requires other != userId
    ensures FirstGrant(Without(ps, userId), other) == FirstGrant(ps, other)
    decreases |ps|
  {
    if ps != [] {
      RevokeKeepsOthers(ps[1..], userId, other);
      if ps[0].userId == userId {
        assert Without(ps, userId) == Without(ps[1..], userId);
      } else {
        var r := Without(ps, userId);
        assert r == [ps[0]] + Without(ps[1..], userId);
        assert r[0] == ps[0] && r[1..] == Without(ps[1..], userId);
      }
    }
  }

  // ---------------------------------------------------------------------------
  // Share links
  // ---------------------------------------------------------------------------

  /** Python truthiness of an optional string: present and non-empty. */
  predicate IsSet(s: Option<string>) {
    s.Some? && s.value != ""
  }

  /**
   * `validate_share_link` against the links `links` at time `now`: nothing for an
   * unknown token, for a link whose expiry lies before `now`, or for a link with
   * a password when another (or none) is given; otherwise the stored link.
   */
  function ValidateLink(links: map<string, ShareLink>, token: string, password: Option<string>, now: int): (r: Option<ShareLink>)
    ensures r.Some? <==>
              && token in links
              && (links[token].expiresAt.None? || now <= links[token].expiresAt.value)
              && (!IsSet(links[token].password) || links[token].password == password)
    ensures r.Some? ==> r.value == links[token]
  {
    if token !in links then None
    else
      var link := links[token];
      if link.expiresAt.Some? && link.expiresAt.value < now then None
      else if IsSet(link.password) && link.password != password then None
      else Some(link)
  }

  /**
   * A link just stored under its token validates with its own password until
   * its expiry (for ever, when it has none), and never with a wrong password
   * when it has one.
   */
  lemma CreatedLinkValidates(links: map<string, ShareLink>, link: ShareLink, now: int, wrong: Option<string>)
    ensures link.expiresAt.None? || now <= link.expiresAt.value ==>
              ValidateLink(links[link.token := link], link.token, link.password, now) == Some(link)
    ensures IsSet(link.password) && wrong != link.password ==>
              ValidateLink(links[link.token := link], link.token, wrong, now) == None
  {
  }

  class PermissionService {
    /** Each document's grants, oldest first. */
    var permissions: map<string, seq<Permission>>
    /** Share links by token. */
    var shareLinks: map<string, ShareLink>

    /** Every grant is filed under its own document, and every link under its own token. */
    ghost predicate Valid()
      reads this
    {
      && (forall d :: d in permissions ==> forall p :: p in permissions[d] ==> p.documentId == d)
      && (forall t :: t in shareLinks ==> shareLinks[t].token == t)
    }

    constructor ()
      ensures Valid() && permissions == map[] && shareLinks == map[]
    {
      permissions := map[];
      shareLinks := map[];
    }

    /** `grant_permission`: appends the grant to the document's list, creating it when absent. */
    method GrantPermission(documentId: string, userId: string, level: string, grantedBy: string, now: int)
      returns (p: Permission)
      requires Valid()
      modifies this
      ensures Valid()
      ensures p == Permission(userId, documentId, level, grantedBy, now)
      ensures permissions == old(permissions)[documentId := PermissionsOf(old(permissions), documentId) + [p]]
      ensures shareLinks == old(shareLinks)
    {
      p := Permission(userId, documentId, level, grantedBy, now);
      if documentId !in permissions {
        permissions := permissions[documentId := []];
      }
      permissions := permissions[documentId := permissions[documentId] + [p]];
    }

    /**
     * `revoke_permission`: when the document has a list, drops the user's
     * entries from it and answers true (whether or not any was dropped);
     * otherwise answers false and changes nothing.
     */
    method RevokePermission(documentId: string, userId: string) returns (revoked: bool)
      requires Valid()
      modifies this
      ensures Valid()
      ensures revoked <==> documentId in old(permissions)
      ensures revoked ==> permissions == old(permissions)[documentId := Without(old(permissions)[documentId], userId)]
      ensures !revoked ==> permissions == old(permissions)
      ensures shareLinks == old(shareLinks)
    {
      if documentId in permissions {
        permissions := permissions[documentId := Without(permissions[documentId], userId)];
        return true;
      }
      return false;
    }

    /** `get_permissions`: the document's list, or no grants when it has none. */
    function GetPermissions(documentId: string): (ps: seq<Permission>)
      reads this
      ensures documentId !in permissions ==> ps == []
      ensures documentId in permissions ==> ps == permissions[documentId]
    {
      PermissionsOf(permissions, documentId)
    }

    /**
     * `check_permission`: false when the document has no list or the user no
     * entry in it; otherwise whether the user's first entry is sufficient.
     */
    method CheckPermission(documentId: string, userId: string, requiredLevel: string) returns (allowed: bool)
      ensures allowed == Allows(PermissionsOf(permissions, documentId), userId, requiredLevel)
    {
      if documentId !in permissions {
        return false;
      }
      var ps := permissions[documentId];
      for i := 0 to |ps|
        invariant forall j :: 0 <= j < i ==> ps[j].userId != userId
      {
        if ps[i].userId == userId {
          FirstAt(ps, i, userId);
          return IsLevelSufficient(ps[i].level, requiredLevel);
        }
      }
      return false;
    }

    /** `create_share_link`: stores the link under the given token, replacing any link there. */
    method CreateShareLink(documentId: string, permissionLevel: string, expiresAt: Option<int>, password: Option<string>, token: string)
      returns (link: ShareLink)
      requires Valid()
      modifies this
      ensures Valid()
      ensures link == ShareLink(documentId, token, expiresAt, password, permissionLevel)
      ensures shareLinks == old(shareLinks)[token := link]
      ensures permissions == old(permissions)
    {
      link := ShareLink(documentId, token, expiresAt, password, permissionLevel);
      shareLinks := shareLinks[token := link];
    }

    /** `validate_share_link` at time `now`. */
    function ValidateShareLink(token: string, password: Option<string>, now: int): (r: Option<ShareLink>)
      reads this
      ensures r.Some? <==>
                && token in shareLinks
                && (shareLinks[token].expiresAt.None? || now <= shareLinks[token].expiresAt.value)
                && (!IsSet(shareLinks[token].password) || shareLinks[token].password == password)
      ensures r.Some? ==> r.value == shareLinks[token]
    {
      ValidateLink(shareLinks, token, password, now)
    }
  }

  /** An entry at `i` with no earlier entry for the user is the user's first grant. */
  lemma {:induction false} FirstAt(ps: seq<Permission>, i: nat, userId: string)
    requires i < |ps| && ps[i].userId == userId
    requires forall j :: 0 <= j < i ==> ps[j].userId != userId
    ensures FirstGrant(ps, userId) == Some(ps[i])
    decreases i
  {
    if i > 0 {
      FirstAt(ps[1..], i - 1, userId);
    }
  }

  /**
   * A reader granted "read" and later "admin" on the same document still fails
   * a "write" check: the first grant decides.
   */
  method ReadThenAdmin(documentId: string, userId: string, owner: string) returns (allowed: bool)
    ensures !allowed
  {
    var service := new PermissionService();
    var first := service.GrantPermission(documentId, userId, "read", owner, 0);
    var second := service.GrantPermission(documentId, userId, "admin", owner, 1);
    assert service.permissions[documentId] == [first, second];
    assert FirstGrant([first, second], userId) == Some(first);
    allowed := service.CheckPermission(documentId, userId, "write");
  }
}
