# A verified model of the passport service's core

`passport` is an account and permission service for a tree of tenants. This project models the parts of it
whose correctness cannot be seen from one function, and proves what they promise together:

- **The tenant tree.** The tree is stored nowhere but in `tenant_closure`, a table of (ancestor, descendant, depth)
  rows that leaf insertion, subtree moves, detaching, deletion with re-parenting and repair all rewrite. `Forest` is the
  tree itself, `Closure` each SQL statement as a function on rows, `ClosureLeaf`, `ClosureMove`, `ClosureRepair`,
  `ClosureTriangle` and `ClosureCycle` relate the statements to the tree, `TenantTree` is the state machine of seeding,
  creating, moving and deleting tenants, `TenantRepair` says what repair does to its tables, and `TenantAdmin` holds the
  services as methods on a `Database` object proved against that machine.
- **Organizations, members and roles.** `Access` is the access decision over string-encoded domains; `OrgService` is the
  store that the organization and member services change write by write, every one of which may be the last to succeed.
- **Caches.** `ExpiredMap` is the expiring map; `MemberCache` interleaves readers, writers and the clock over it;
  `TenantCache` and `TenantConfig` are the tenant cache in front of the tree and the guarded configuration update, and
  `ConfigSize` its order-dependent size limit.
- **Data scopes and departments.** `DataScope` and `Departments`.
- **Signed cookies.** `Base64` (section 5 of RFC 4648) and `CookieCodec`; MAC, keystream and serializer are parameters.

`Common`, `Sets` and `Decimal` are small helpers: optional values and pages, minimum and ascending listing of finite
sets, decimal digits.

What the proofs show about the code, beyond what its own documentation says:

- Reachability, parents and depths 0 and 1 are exact in every reachable table. Deeper depths are only bounded: a move
  keeps an old smaller depth, so a subtree that gets further from a shared ancestor is left with a depth that is too
  small (`StaleDepthWitness`); `MoveStaysExactIff` says exactly when that happens. Repair does not heal such a row: on
  every table the services can reach it changes nothing at all (`RepairIsIdentity`).
- Moving a tenant that has no self row, as `TenantAdd` leaves it, breaks the table; `MoveKeepsForestIff` is the exact
  condition. The consistency step still gives it the rows from its new ancestors, so that listings show it
  (`SafeMoveRowless`); a subtree moved below such a tenant gets the row of its new parent alone (`SafeMoveBelowRowless`).
- `OrgDelete` whose very last write fails has removed the member rows but not evicted their cached answers; in every
  other case the member cache stays in agreement (`OrgService.Store.OrgDelete` states the equivalence). The case occurs:
  `StaleMemberWitness` reaches it from an empty store.
- An encrypted cookie with an empty payload never decodes, because `decrypt` demands more bytes than the IV
  (`DecodeOfEncode` covers all payloads).
- `TTL` answers 0 at the second of expiry, when `Get` already misses; its comment promises -1 for a missing or expired key.
- A removal and its eviction can fall between a reader's database read and its cache fill (`EvictionRace`). `QuietIff`
  is the exact condition: no continuation that does not write the membership again is ever told "is a member" from the
  cache if and only if the membership is gone, no entry for it is still live, and no reader is between its database read
  and its clock read or carries an answer that has not expired. What holds in every interleaving is `CachedAnswerIsRecent`.
- The tenant cache can hold a configuration older than the row (`StaleCacheOccurs`): a late fill after another caller's
  eviction. `FreshIff` is the exact condition: until the next write no lookup gets anything but the row if and only if the
  cache is empty or holds the row and no caller is about to fill it with something else. The guarded update refuses every
  edit computed from anything but the row (`CommitReplacesItsBase`), so none is lost.
- A tenant with children cannot be deleted while the configured root tenant, which should take them, has not been seeded;
  on reachable tables that is the only refusal (`AcceptedChildren`).
- `memberUIDsInDeps` pages through a query without ORDER BY, 200 rows at a time. A member is reported whatever order the
  queries use if and only if the organization has at most 200 members (`AlwaysFoundIff`); with more, legal answers of the
  database leave members out. Nobody is ever reported wrongly.
- Whether a configuration update hits the limit of 100 keys depends on the order in which Go visits the map;
  `EveryOrderIff` and `SomeOrderIff` say exactly when all orders and when some order go through.

## Model

| member | source | states |
|---|---|---|
| `TenantTree.RunIsClosure` | dao/tenant_closure_v2.dao.go:79-205 | After any sequence of seeding any tenants, creating, moving and (possibly interrupted or refused) deleting: the tenants are the self rows, the pairs are exactly what the depth-1 rows connect, no tenant lies on a cycle of parents, nobody has two parents, depths 0 and 1 are exact, all others lie between 2 and the true distance. |
| `TenantTree.RunKeeps` | service/admin.service.go:216-313 | Every run leaves a table standing for a forest, with exact depths if it contains no direct SetParent. |
| `TenantTree.StepKeeps` | service/admin.service.go:411-465 | Each single operation keeps the invariant; all but SetParent keep exact depths exact. |
| `TenantTree.SeedKeeps` | dao/seed_root.go:227-283 | Seeding any id adds at most that tenant's self row, changes no parent and keeps ids fresh. |
| `TenantTree.NewKeeps` | service/admin.service.go:19-156 | A creation adds exactly one leaf below the chosen parent and changes nobody else's parent. |
| `TenantTree.CreatedBelowParent` | service/admin.service.go:50-62 | A committed creation hangs the new tenant, as a leaf at depth 1, below the requested parent, or below the session's root tenant when none is requested; exact depths stay exact. |
| `TenantTree.SetParentMovable` | service/admin.service.go:240-306 | On a reachable table, past the parameter checks, a move is refused if and only if the new parent lies in the moved subtree; the consistency step then adds nothing. |
| `TenantTree.SetParentKeeps` | service/admin.service.go:216-313 | SetParent re-hangs exactly the moved tenant's subtree, or changes nothing at all. |
| `TenantTree.ChildrenAreChildren` | service/admin.service.go:436-447 | What the deletion loop picks from the listing are exactly the target's children in the tree. |
| `TenantTree.RootAcceptsChild` | service/admin.service.go:442-447 | The root tenant accepts every node that is not yet its child: re-parenting during deletion is never refused. |
| `TenantTree.AcceptedChildren` | service/admin.service.go:436-447 | In a deletion all children are accepted if the root tenant exists, and none if it does not. |
| `TenantTree.MoveToRoot` | service/admin.service.go:442-447 | Hanging a child below the root tenant changes that one parent and keeps exact depths exact. |
| `TenantTree.MovedAllKeeps` | service/admin.service.go:436-447 | After any prefix of the re-parenting loop the invariant holds and exactly the children of that prefix hang below the root tenant. |
| `TenantTree.DeleteCompletes` | service/admin.service.go:411-465 | A completed deletion removes exactly the target; its children hang below the root tenant with their subtrees, everyone else's parent is unchanged, exact depths stay exact. |
| `TenantTree.DeleteKeeps` | service/admin.service.go:411-465 | A deletion interrupted or refused at any child leaves a table that stands for a forest, exact if it was exact. |
| `TenantTree.RemovedInv` | common/ensure_database.go:218-223 | Deleting a childless tenant's row, with its cascade, leaves the invariant without that node. |
| `TenantTree.ParentsAreForest` | dao/tenant.dao.go:192-263 | The parents read from the depth-1 rows are the forest's parents. |
| `TenantTree.AllFound` | dao/tenant.dao.go:192-263 | The lookup joined on depth-1 rows finds every tenant, with one parent at most: the right one. |
| `TenantTree.MaxId` | dao/seed_root.go:266-283 | The recalibrated sequence is at least the root id and every known id, and is one of them. |
| `Closure.DepthOneIsParent` | dao/tenant.dao.go:213-213 | In a table standing for a forest the depth-1 rows are its parent edges, none lost, none invented. |
| `Closure.ForestUnique` | dao/tenant_closure_v2.dao.go:79-225 | A table stands for one forest only. |
| `Closure.PairsClimbParents` | dao/tenant_closure.dao.go:68-92 | A pair is stored if and only if climbing parent edges from the descendant reaches the ancestor. |
| `Closure.ExactClosure` | dao/tenant_closure_v2.dao.go:244-312 | Every forest has an exact table; with `ExactUnique`, only one. |
| `Closure.ExactUnique` | dao/tenant_closure_v2.dao.go:244-312 | Two exact tables of one forest are equal. |
| `Closure.EnsureRow` | dao/tenant_closure_v2.dao.go:316-351 | Row by row, on any table: the consistency step keeps every row and depth but that of (parent, tenant), which ends present at depth 1 unless it was 0; the tenant gets a row from each stored ancestor of the parent that has none, one deeper than to the parent; no other row appears. |
| `ClosureLeaf.InsertRow` | dao/tenant_closure.dao.go:14-65 | Row by row: inserting a leaf keeps every old row and depth and adds exactly the self row, the parent row and one row per ancestor of the parent, one deeper. |
| `ClosureLeaf.InsertRepresents` | dao/tenant_closure.dao.go:14-65 | The table of a forest becomes the table of the forest with the leaf; exact stays exact. |
| `ClosureLeaf.SelfRowRepresents` | dao/seed_root.go:227-264 | A self row for a tenant outside the forest makes it a tree of its own. |
| `ClosureLeaf.CascadeRepresents` | common/ensure_database.go:218-223 | The cascade of a childless tenant removes exactly its node. |
| `ClosureMove.AfterDeletes` | dao/tenant_closure_v2.dao.go:109-140 | The two DELETEs remove exactly the rows from old proper ancestors into the subtree, except those of ancestors shared with the new parent; nothing else changes. |
| `ClosureMove.MoveRow` | dao/tenant_closure_v2.dao.go:109-205 | Row by row: (old proper ancestors) x subtree is replaced by (new parent and its ancestors) x subtree, each with the smaller of a surviving old depth and the joined path; every other row and depth is untouched; no new parent means detached. |
| `ClosureMove.MoveRepresents` | dao/tenant_closure_v2.dao.go:79-225 | The table of a forest becomes the table of the forest with the subtree re-hung. |
| `ClosureMove.MovedDist` | dao/tenant_closure_v2.dao.go:165-175 | The true distances after a move: the joined path across the cut, the old distance elsewhere. |
| `ClosureMove.MovedDepthOk` | dao/tenant_closure_v2.dao.go:165-175 | Each stored depth after a move is again exact at 0 and 1 and otherwise between 2 and the true distance. |
| `ClosureMove.MoveAndBack` | dao/tenant_closure_v2.dao.go:79-225 | Moving a subtree away and back restores every pair, every parent and every depth 0 and 1. |
| `ClosureMove.MoveStaysExactIff` | dao/tenant_closure_v2.dao.go:116-175 | From exact depths a move leaves exact depths if and only if no ancestor row that survives the DELETEs belongs to an ancestor that gets further away. |
| `ClosureMove.StaleDepthWitness` | dao/tenant_closure_v2.dao.go:165-175 | From any exact table, three creations and one move below a sibling leave a depth that is too small. |
| `ClosureMove.StaleWhenSiblings` | dao/tenant_closure_v2.dao.go:165-175 | Hanging any node that has a child below a node of its own level always leaves a stale depth. |
| `ClosureMove.FallbackNeverFires` | dao/tenant_closure_v2.dao.go:186-204 | On a table of a forest the main INSERT already makes the parent row, so the manual insertion is dead code. |
| `ClosureMove.EnsureIsIdentity` | dao/tenant_closure_v2.dao.go:316-351 | The consistency step changes nothing on a table in which the parent is in place. |
| `ClosureMove.SafeMoveIsPlainMove` | dao/tenant_closure_v2.dao.go:354-390 | The Safe move leaves the same rows as the plain move and its final verification succeeds. |
| `ClosureMove.SafeMoveRowless` | dao/tenant_closure_v2.dao.go:354-390 | A tenant without closure rows gets a row from the new parent and from every ancestor stored for it, at the right depths, and no self row; every other row stays. |
| `ClosureMove.SafeMoveBelowRowless` | dao/tenant_closure_v2.dao.go:354-390 | A subtree moved below a tenant without closure rows is left as after a detachment, with the row of its new parent alone. |
| `ClosureMove.MoveKeepsForestIff` | dao/tenant_closure_v2.dao.go:354-390 | An accepted Safe move leaves a table standing for some forest if and only if it detaches or both tenants have their self row. |
| `ClosureRepair.AddSelfRows` | dao/tenant_closure_v2.dao.go:248-252 | The keys grow by exactly the tenants' self rows; no existing row changes. |
| `ClosureRepair.RepairDoubles` | dao/tenant_closure_v2.dao.go:244-312 | On true rows one repair adds no false row, keeps depths exact and doubles the distance up to which every ancestor pair is present. |
| `ClosureRepair.RepairReaches` | dao/tenant_closure_v2.dao.go:244-312 | n repairs from true rows with all parent edges give every ancestor pair within distance 2^n, with exact depth, whatever the database picks among joined rows. |
| `ClosureRepair.RepairConverges` | dao/tenant_closure_v2.dao.go:244-312 | Once 2^n is at least the height the table is the exact closure, and later repairs change nothing. |
| `ClosureRepair.RepairFixesExact` | dao/tenant_closure_v2.dao.go:244-312 | The exact closure is a fixed point of repair. |
| `ClosureRepair.UpdateKeepsTrue` | dao/tenant_closure_v2.dao.go:277-292 | On true rows the depth minimisation is the identity. |
| `ClosureRepair.UpdateIsLeast` | dao/tenant_closure_v2.dao.go:277-292 | Row by row, on any table: no row is lost or raised, each depth ends at most at every joined sum, and is the old one or one of those sums. |
| `ClosureRepair.NoNewPairs` | dao/tenant_closure_v2.dao.go:267-274 | On the pairs of a forest the self-join produces no new key. |
| `ClosureRepair.RepairLive` | dao/tenant_closure_v2.dao.go:244-312 | On any table of a forest repair adds only the missing self rows, keeps depths 0 and 1, never raises a depth, and the result again stands for the forest with the new roots. |
| `ClosureTriangle.InsertTriangle` | dao/tenant_closure.dao.go:14-65 | Inserting a leaf keeps the triangle inequality: no stored depth exceeds the sum of two stored depths through a middle node. |
| `ClosureTriangle.MoveTriangle` | dao/tenant_closure_v2.dao.go:109-205 | A move keeps the triangle inequality, although it mixes surviving old depths with joined new ones. |
| `ClosureTriangle.RepairAddsSelfRows` | dao/tenant_closure_v2.dao.go:244-312 | On the table of a forest with that inequality one repair adds the missing self rows and does nothing else. |
| `TenantRepair.RunTriangle` | dao/tenant_closure_v2.dao.go:277-292 | After every run the stored depths satisfy the triangle inequality. |
| `TenantRepair.RepairAddsOnlySelfRows` | dao/tenant_closure_v2.dao.go:244-312 | After every run, with any further tenants that have no rows yet, repair adds exactly their self rows, whatever the database picks. |
| `TenantRepair.RepairIsIdentity` | dao/tenant_closure_v2.dao.go:244-312 | On every reachable table repair is the identity: it neither heals nor lowers a depth. |
| `ClosureCycle.DetectCircularReference` | dao/tenant_closure_v2.dao.go:35-71 | The returned nodes have no duplicates, all lie on a cycle, and on a transitively closed table they are all the nodes on cycles of any length. |
| `ClosureCycle.WalkIsRow` | dao/tenant_closure_v2.dao.go:13-18 | In a transitively closed table every walk is one row, so the two-row query sees cycles of any length. |
| `ClosureCycle.ForestHasNoCycle` | dao/tenant_closure_v2.dao.go:35-71 | A table of a forest is transitively closed and the query returns nothing. |
| `TenantAdmin.Database.TenantClosureInsert` | dao/tenant_closure.dao.go:14-65 | Turns the table of any forest into that of the forest with the new leaf, exact depths staying exact. |
| `TenantAdmin.Database.TenantClosureIsDescendant` | dao/tenant_closure.dao.go:68-92 | Answers the stored depth, and -1 exactly when there is no row. |
| `TenantAdmin.Database.TenantClosureUpdateSubtree` | dao/tenant_closure_v2.dao.go:79-225 | A refused move changes nothing; an accepted one turns the table of any forest into that of the re-hung forest. |
| `TenantAdmin.Database.EnsureTenantClosureConsistency` | dao/tenant_closure_v2.dao.go:316-351 | On any table exactly the rows of `Closure.EnsureRow`; nothing changes without tenant or parent, nor when the parent is in place in a table of a forest. |
| `TenantAdmin.Database.TenantClosureUpdateSubtreeV2Safe` | dao/tenant_closure_v2.dao.go:354-390 | Refuses exactly as the plain move and changes nothing then; accepted, it re-hangs any forest, gives a tenant without rows those of its new parent and that parent's stored ancestors, leaves on any table a row to the tenant from every stored ancestor of the parent, and reports whether the parent row is there. |
| `TenantAdmin.Database.CheckAndRepairTenantClosureTable` | dao/tenant_closure_v2.dao.go:244-312 | On the table of any forest, whatever joined rows the database picks: the only new pairs are tenants' self rows, depths 0 and 1 stay, no depth grows, and the result stands for the forest with the new roots; an exact table of all tenants and every reachable table are not changed at all. |
| `TenantAdmin.Database.TenantListByAncestorID` | dao/tenant.dao.go:398-453 | Ascending ids of tenants below the ancestor, each with its stored depth, as many as the window over all of them holds. |
| `TenantAdmin.ListingSpec` | dao/tenant.dao.go:398-453 | All pages together have every tenant below the ancestor exactly once, with its stored depth. |
| `TenantAdmin.Database.UserQueryByTenant` | dao/tenant.dao.go:581-624 | Distinct users of that tenant, as many as there are up to the page size. |
| `TenantAdmin.SeedRoot` | dao/seed_root.go:111-134 | A valid table stays valid with the same parents and exactness, exactly the seeded tenant and its self row are added, the sequence stands at the largest id in use, and the administrator, new or not, belongs to that tenant; no other user changes. |
| `TenantAdmin.AdminTenantNew` | service/admin.service.go:19-156 | An id is returned exactly when the session is the root tenant's, the requested parent is in its subtree, the account is free and nothing fails; the new tenant then is a leaf at depth 1 below the requested parent, or below the root tenant if none is requested, with the administrator bound to it; no id means no row of either table. |
| `TenantAdmin.InsertInTransaction` | service/admin.service.go:81-156 | Administrator, tenant row and closure rows appear together or not at all, and exactly when. |
| `TenantAdmin.TenantInsert` | dao/tenant.dao.go:18-169 | A fresh row under the next id; the administrator is bound to it, and the insert fails exactly when the account is missing or has a tenant already. |
| `TenantAdmin.AdminTenantSetParent` | service/admin.service.go:216-313 | On any table of a forest of all tenants it goes through exactly when permitted, both tenants exist, the parent is new and outside the moved subtree, and re-hangs exactly that subtree; a tenant without closure rows is accepted and gets its rows from the new parent and that parent's ancestors; every refusal is told apart and changes nothing. |
| `TenantAdmin.MoveInTransaction` | service/admin.service.go:264-306 | The whole move or no change at all, and which of the two. |
| `TenantAdmin.CollectTenantSubtree` | service/admin.service.go:467-488 | The paging loop ends and returns the whole listing: every descendant once. |
| `TenantAdmin.ListedChildren` | service/admin.service.go:436-441 | Filtering that listing by depth 1 gives each child once, in id order. |
| `TenantAdmin.DeleteUsersByTenant` | service/admin.service.go:490-513 | The always-page-1 loop ends; it succeeds exactly when no deletion fails, then no user of the tenant is left, and no other user is touched. |
| `TenantAdmin.ReparentChildren` | service/admin.service.go:436-447 | However it ends, exactly a prefix of the accepted children has been moved; it completes exactly when none is refused and no move fails. |
| `TenantAdmin.AdminTenantDelete` | service/admin.service.go:411-465 | However it ends, the tables are those of a prefix of the deletion and other tenants' users are untouched; it completes exactly when the call is permitted, the tenant is found, no child is refused and no statement fails, with tenant, closure rows and users gone; refusals are told apart and change nothing. |
| `TenantAdmin.ValidDeletion` | service/admin.service.go:430-447 | On a valid table every tenant is found, and no child is refused if and only if the root tenant exists or there are no children. |
| `TenantAdmin.DeleteTenantRecord` | service/admin.service.go:544-555 | The row and, by cascade, exactly the closure rows naming it are gone; for a childless tenant the table becomes that of the forest without it. |
| `Access.DomainInjective` | accessctl/access.go:212-214 | No two (tenant, organization) pairs share a domain string. |
| `Access.DomainNotLegacy` | accessctl/access.go:216-218 | No organization's domain is any tenant's legacy domain. |
| `Access.UserInjective` | accessctl/access.go:208-210 | No two uids share a user string. |
| `Access.UidRoundTripIff` | accessctl/access.go:152-165 | The uid is recovered from its user string if and only if it is below 2^63. |
| `Access.UidsOf` | accessctl/access.go:152-165 | Position by position the uids behind the user strings. |
| `Access.DecText` | accessctl/access.go:208-218 | Ids are written in plain decimal notation. |
| `Access.Names` | accessctl/access.go:208-218 | The very strings for a user, an organization's domain and a legacy domain. |
| `Access.DecisionIff` | rbac_with_domains_model.conf:14-14 | A request is allowed if and only if its user holds the root role in the domain, or a chain of at most ten roles of that domain leads from the user to a name granted this very object and action there. |
| `Access.DecisionIsLocal` | rbac_with_domains_model.conf:14-14 | A decision, role inheritance and root rule included, depends on the tuples of its own domain only. |
| `Access.DomainsAreIsolated` | accessctl/access_casbin.go:72-121 | No sequence of role, policy, copy and remove calls for one (tenant, org) changes any decision in another or any tuple of a legacy domain. |
| `Access.CallTuples` | accessctl/access.go:109-179 | Each call adds or removes exactly its own tuple, or all of one user's roles in one domain, and organization 0 changes nothing. |
| `Access.AddThenRemove` | accessctl/access.go:109-179 | Removing a role or policy that was newly added gives back the rules from before. |
| `Access.DeletedRolesGrantNothing` | accessctl/access_casbin.go:50-56 | After a user's roles in a domain are deleted, the user is allowed there exactly what is granted to the user by name. |
| `Access.RemovedDomainGrantsNothing` | accessctl/access_casbin.go:110-121 | In a removed domain nothing is allowed. |
| `Access.CopiedDomainDecides` | accessctl/access_casbin.go:72-108 | Copying the policies and roles of a domain without incomplete tuples into an empty one gives every request the source domain's decision and touches no other domain. |
| `OrgService.Store.constructor` | service/org.service.go:13-65 | A store without organizations satisfies all invariants. |
| `OrgService.Store.InsertMember` | dao/org.dao.go:117-130 | An existing membership is kept, a new one appears, its cache entry goes; no invariant is lost. |
| `OrgService.Store.RequireOrg` | service/org.service.go:67-97 | Through the cache, the very answer the database would give, with each error told apart. |
| `OrgService.Store.UserInOrg` | service/org.service.go:100-122 | Succeeds exactly when the organization is the tenant's and the membership is stored or cached, and then caches it; with agreeing caches that is the database's answer, and agreement is kept. |
| `OrgService.Store.OrgAddMember` | service/org.service.go:155-167 | Exactly when it succeeds, and the whole effect: one membership. |
| `OrgService.Store.OrgRemoveMember` | service/org.service.go:169-185 | Exactly when it succeeds; membership and all its roles in this domain go, roles first, so a cut-off never leaves a role without membership; other domains, users and rows are untouched. |
| `OrgService.Store.RemoveDomainTuples` | accessctl/access_casbin.go:110-121 | All tuples of the domain go, none of any other, even when cut off. |
| `OrgService.Store.EvictMembers` | service/org.service.go:209-211 | Exactly the listed users' entries of this organization are evicted. |
| `OrgService.Store.OrgDelete` | service/org.service.go:187-213 | Cut off after any write nothing dangles and nothing outside the organization changes; on success rows, tuples, departments and caches are gone; the member cache keeps agreeing with the database if and only if it is not exactly the last write that fails while a membership is cached. |
| `OrgService.DroppedRowsAgreeIff` | service/org.service.go:203-211 | Dropping an organization's member rows keeps the cache in agreement exactly when none of them is cached. |
| `OrgService.Store.AskThenDelete` | service/org.service.go:187-213 | From any store with agreeing caches and a member: asking for it and losing the last write of the deletion leaves a cached membership without a row. |
| `OrgService.StaleMemberWitness` | service/org.service.go:187-213 | The same from an empty store, so the exception is reachable. |
| `OrgService.Store.CopyPolicyTuples` | accessctl/access_casbin.go:72-89 | The target gains exactly the complete tuples of the source domain; cut off, a part of them. |
| `OrgService.Store.SourceOfPolicies` | service/org.service.go:53-59 | The source is the domain of the tenant's lowest-id organization, or the legacy domain if there is none. |
| `OrgService.SourceIsLowest` | service/org.service.go:53-59 | That domain is the one of the organization no other of the tenant's precedes by id, and `tenant-<id>` for a tenant without organizations. |
| `OrgService.Store.InstallOwner` | service/org.service.go:42-51 | Membership before role; on success the owner alone is added. |
| `OrgService.Store.OrgCreate` | service/org.service.go:13-65 | Succeeds exactly when tenant and name are given, the tenant is found, the name is free and the writes up to the owner's role work; a taken name is refused as such; on success only the tenant's owner holds a role in the new domain; if the copy went through every role has exactly the complete grants it has in the source domain; no other domain and no other membership changes; cut off anywhere nothing dangles. |
| `OrgService.Store.AddRoleForUserInAllOrgs` | service/org.service.go:234-249 | On success the user is a member with the role in every organization of the tenant; only this user's rows and tuples in this tenant are new; cut off anywhere no role lacks its membership. |
| `OrgService.Store.BindUser` | service/tenant.user.service.go:40-56 | Takes a user without tenant or finds it there already; a user of another tenant is refused and unchanged. |
| `OrgService.Store.TenantUserAdd` | service/tenant.user.service.go:32-65 | Succeeds exactly when the organization is the tenant's, the user is free or there already and no write fails; tenant, membership and all roles are there then; nothing of anyone else changes; cut off anywhere nothing dangles. |
| `OrgService.Store.LeaveAllOrgs` | service/tenant.user.service.go:83-93 | On success no membership in the tenant is left; only this user's rows and tuples in this tenant are gone. |
| `OrgService.Store.TenantUserDel` | service/tenant.user.service.go:82-103 | The user row goes only after all memberships and roles in the tenant, and only if the user is the tenant's; other users keep everything. |
| `OrgService.Store.TenantUserLeaveOrg` | service/tenant.user.service.go:105-122 | The membership goes; the user row goes with it if and only if no membership in the tenant is left, and never if the user belongs to another tenant. |
| `OrgService.Store.Run` | service/org.service.go:13-249 | Any run of the calls, each cut off after any number of writes, leaves no dangling role, membership or policy and a correct organization cache; the member cache stays correct if no organization deletion is cut off before its last write. |
| `ExpiredMap.Cache.Set` | cache/expiredMap.go:26-46 | The value is readable strictly before its deadline and not after: a lifetime that is not beyond the current time counts from now, a later number is the deadline itself; no other key is affected. |
| `ExpiredMap.Cache.Get` | cache/expiredMap.go:49-62 | Hits exactly the live entries; its lazy deletion changes no answer now or later. |
| `ExpiredMap.Cache.Delete` | cache/expiredMap.go:65-69 | Removes that entry only. |
| `ExpiredMap.Cache.TTL` | cache/expiredMap.go:80-94 | Positive exactly when the entry is live; 0 at the very second of expiry, -1 later or when absent. |
| `MemberCache.ProvenanceHolds` | service/org.service.go:100-122 | At every point of every interleaving each cache entry and each reader's answer traces back to a named reader's database read that found this membership and to that same reader's later clock read. |
| `MemberCache.CachedAnswerIsRecent` | cache/cache.go:61-74 | A cached "is a member" was filled by a reader whose own database read step found the membership and whose own clock read step set the deadline, less than 300 s plus its read-to-fill delay ago. |
| `MemberCache.EvictionRace` | service/org.service.go:169-185 | From any members and time, an interleaving in which a removed membership is still answered from the cache. |
| `MemberCache.QuietIff` | service/org.service.go:100-122 | From any state: no continuation without a new insert of the membership is told "is a member" from the cache if and only if the state is quiet for it. |
| `MemberCache.QuietAfterTtl` | service/org.service.go:169-185 | In any reachable state without the membership, 300 s are enough to become quiet if no reader is between its database read and its clock read. |
| `MemberCache.RemoveAndEvictQuietIff` | service/org.service.go:169-213 | Removing one membership or a whole organization's and then evicting the entry is enough for quiet if and only if no reader carries an answer that is still good; a new insert ends any quiet. |
| `MemberCache.RemovalsAreLocal` | dao/org.dao.go:117-165 | Inserts and removals touch the named memberships only. |
| `TenantConfig.NoLostUpdate` | dao/tenant.dao.go:521-554 | In every interleaving of cache lookups, database reads, late fills, role edits, key updates, administrator replacements and delayed evictions, the configuration is the committed edits applied in commit order. |
| `TenantConfig.CommitReplacesItsBase` | service/tenant.service.go:113-256 | In every run a write commits if and only if its edit is permitted and its snapshot, however it was read, is the very row it replaces; the new version is later. |
| `TenantConfig.ReplacementCommitsIff` | service/admin.service.go:316-368 | In every run the administrator's replacement commits if and only if the client sends the update_time the row still carries, and then under a later one. |
| `TenantConfig.OtherWriters` | dao/tenant.dao.go:556-580 | A change of the base columns keeps the configuration under a later version. |
| `TenantConfig.OtherWritersInvalidate` | service/tenant.service.go:113-256 | After such a change, or a deletion, no snapshot from before commits any more. |
| `TenantConfig.StaleCacheOccurs` | service/tenant.service.go:24-39 | From any row and any edit: an interleaving after which the cache holds the configuration from before the commit. |
| `TenantConfig.FreshIff` | service/tenant.service.go:24-39 | From any state: until the next write no lookup of any continuation gets anything but the row if and only if the cache is empty or holds the row and no caller is about to fill it with something else. |
| `TenantConfig.EvictionFreshensIff` | service/tenant.service.go:15-22 | An eviction is enough for freshness if and only if no caller is about to fill the cache with something else than the row. |
| `TenantConfig.StaleHitIsRefused` | service/tenant.service.go:113-140 | In every run, a caller that hits a cache different from the row cannot commit anything. |
| `TenantConfig.AddThenDelete` | service/tenant.service.go:113-175 | Deleting an added role gives back the configuration from before. |
| `TenantConfig.AddRoleAppends` | service/tenant.service.go:126-137 | An added role comes last; it is refused exactly when there are more than 100 roles or one shares its title or value. |
| `TenantConfig.DelRoleDropsFirst` | service/tenant.service.go:161-172 | Of the roles with the given value the first is gone, all others stay in their order; without such a role nothing is written. |
| `TenantConfig.UpdateOverwrites` | service/tenant.service.go:216-255 | 1 to 100 keys of at most 64 bytes are each set or deleted, and nothing else of the configuration changes. |
| `TenantConfig.IndexOf` | service/tenant.service.go:161-166 | The first role with that value, or the number of roles. |
| `TenantConfig.MergeOne` | service/tenant.service.go:243-253 | One round of the update loop adds one key to what has been merged, in whatever order the keys come. |
| `ConfigSize.EveryOrderIff` | service/tenant.service.go:243-253 | Every order of the keys goes through if and only if even storing the new keys first and deleting last stays within the limit. |
| `ConfigSize.SomeOrderIff` | service/tenant.service.go:243-253 | Some order goes through if and only if deleting first and storing the new keys last does. |
| `ConfigSize.OrderIrrelevant` | service/tenant.service.go:243-253 | All orders that go through give the same configuration. |
| `TenantCache.Store.Load` | service/tenant.service.go:24-39 | The very tenant the database query would return, parent included, cached or not. |
| `TenantCache.ParentIdIsParent` | dao/tenant.dao.go:192-263 | The parent id derived from the depth-1 rows is the tenant's parent in the tree, and 0 for a tenant without one. |
| `TenantCache.Store.UpdateConfiguration` | dao/tenant.dao.go:521-554 | Succeeds exactly when the row still carries the update_time that was read, with a changed row and a missing one told apart; the configuration is replaced under a later update_time and no other column or row changes. |
| `TenantCache.Store.AddRoleTo` | service/tenant.service.go:113-140 | Succeeds exactly when there are at most 100 roles, none shares title or value, the tenant exists and the write works; the role then is the last one, under a later update_time; the cache agrees with the database afterwards on every way out. |
| `TenantCache.Store.DelRoleFrom` | service/tenant.service.go:143-175 | Succeeds exactly when the role is not root, the tenant exists and any write works; the stored roles are the old ones without the first that has the value, in their order; an unknown role is no error and no write; agreement afterwards. |
| `TenantCache.Store.UpdateMore` | service/tenant.service.go:213-256 | Succeeds whenever every order of the keys fits and only if some order does; on success the given keys are set or deleted and nothing else changes but the update_time; an update abandoned half way, with the cached object already changed, still leaves cache and database in agreement. |
| `TenantCache.Store.ReplaceConfig` | service/admin.service.go:316-368 | Succeeds exactly when the client's update_time is current; agreement afterwards. |
| `TenantCache.Store.UpdateBaseColumns` | service/admin.service.go:371-408 | The configuration survives; agreement afterwards. |
| `TenantCache.Store.SetParent` | service/admin.service.go:216-313 | The tree moves as specified; every remaining cached tenant, with its derived parent, still agrees. |
| `TenantCache.Store.New` | service/admin.service.go:19-156 | The tree grows as specified; an id is returned exactly when the parent is in the session tenant's subtree and the creation commits; exactly one row, with the given name and configuration, is new then, and its parent id is the requested parent or the root tenant; agreement afterwards. |
| `TenantCache.Store.Delete` | service/admin.service.go:411-465 | Succeeds exactly when permitted, no child is refused and no statement fails; agreement afterwards, also when stopped at any child. |
| `TenantCache.MovedAgrees` | service/admin.service.go:237-238 | Evicting the moved tenant and its new parent is enough: no other entry's parent changes. |
| `TenantCache.RemovedAgrees` | service/admin.service.go:456-462 | After re-parenting, evicting the deleted tenant is enough. |
| `DataScope.ParseUint64Slice` | service/datascope.go:178-234 | The result lists exactly the ids the stored value lists, for each shape it can have. |
| `DataScope.ListsOne` | service/datascope.go:209-234 | A single value lists a positive number whatever its shape: the truncated float, the decimal text below 2^64; text with anything but digits lists nothing. |
| `DataScope.ListsEach` | service/datascope.go:184-191 | A list lists what its entries list; nested lists count for nothing. |
| `DataScope.ResolveUserDeptIDs` | service/datascope.go:81-124 | Duplicate-free, and exactly the user's departments in this organization together with the departments the user leads. |
| `DataScope.MemberUIDsInDeps` | service/datascope.go:136-176 | For any answers of the page queries: duplicate-free, and exactly the users that some fetched page shows with one of the departments. |
| `DataScope.PagingIsSound` | dao/org.dao.go:216-259 | Pages in any order and with any overlap never lead to a user who is not a sharing member. |
| `DataScope.AlwaysFoundIff` | dao/org.dao.go:216-259 | A sharing member is reported under every order the database may use if and only if the members fit on one page. |
| `DataScope.StableOrderIsComplete` | dao/org.dao.go:216-259 | If all page queries use one order, every sharing member is reported. |
| `DataScope.RootShortcutAgrees` | service/datascope.go:126-134 | For every caller and module the level is the same with and without the root shortcut. |
| `DataScope.ResolveDataScope` | service/datascope.go:32-79 | The level is decided by grants of `data-scope/<module>/all` and `/dept` alone; departments are duplicate-free and equal their plain set definition; users are duplicate-free, never wrong, and equal theirs when the members fit on one page. |
| `Departments.ReplacedMembers` | service/tenant.user.service.go:226-242 | Inside the organization exactly the given nonzero ids, outside it exactly what was there. |
| `Departments.OutsideEach` | service/tenant.user.service.go:226-232 | Entry by entry, in order and without merging duplicates: zeros and the organization's own departments go, all else stays. |
| `Departments.ReplacedInOrder` | service/tenant.user.service.go:226-242 | The kept entries come first, then the given ids, each in their order. |
| `Departments.Idempotent` | service/tenant.user.service.go:194-245 | Repeating a call changes nothing, not even the order. |
| `Departments.DifferentOrgsCommute` | service/tenant.user.service.go:194-245 | Calls for different organizations commute as sets. |
| `Departments.LastCallDecides` | service/tenant.user.service.go:194-245 | After any run of calls, whether a user has a department is decided by the last effective call for its organization alone. |
| `Departments.Store.SetDepartment` | service/tenant.user.service.go:194-245 | Succeeds exactly for a user of that tenant and departments of that organization; then the organization's part of the list is the given nonzero ids and nobody else's list changes; a user of another tenant is refused; every refusal changes nothing. |
| `Base64.RoundTrip` | sessions/securecookie.go:398-412 | Decoding undoes encoding for every byte string. |
| `Base64.EncodedIsPlain` | sessions/securecookie.go:398-403 | Encoded text has the padded length and holds neither line breaks nor the separator. |
| `Base64.Vectors` | sessions/securecookie.go:398-403 | The test vectors of section 10 of RFC 4648 and the two letters of its URL-safe alphabet. |
| `Base64.StripEach` | sessions/securecookie.go:405-412 | The decoder skips line breaks wherever they stand, and nothing else. |
| `Base64.OnlyEncodingsDecode` | sessions/securecookie.go:405-412 | Whatever decodes is, up to line breaks and unused trailing bits, the encoding of the answer. |
| `CookieCodec.FormatParse` | sessions/securecookie.go:191-194 | Every int64 timestamp survives formatting and parsing and contains no separator. |
| `CookieCodec.FormatIntText` | sessions/securecookie.go:191-191 | Timestamps are written in plain decimal notation, behind a minus sign when negative. |
| `CookieCodec.ParseIntIff` | sessions/securecookie.go:241-244 | A timestamp is read as a number if and only if it is that number in digits behind at most one sign and fits an int64. |
| `CookieCodec.SplitFrame` | sessions/securecookie.go:230-234 | Splitting undoes framing although the MAC may contain the separator. |
| `CookieCodec.MessageInjective` | sessions/securecookie.go:191-191 | The authenticated message determines name, date and value, whatever the name contains. |
| `CookieCodec.XorKeyStream` | sessions/securecookie.go:306-335 | The in-place loop combines each byte with the keystream byte at its position, byte by byte. |
| `CookieCodec.XorTwice` | sessions/securecookie.go:306-335 | Applying the keystream twice is the identity (counter mode, section 6.5 of NIST SP 800-38A). |
| `CookieCodec.OpenSealed` | sessions/securecookie.go:306-335 | Decryption undoes encryption except for the empty payload, which it rejects. |
| `CookieCodec.DecodeOfEncode` | sessions/securecookie.go:169-268 | For every name, value, key, IV and pair of times, what decoding a produced cookie gives: the value, the age error, or a decryption failure exactly for an empty encrypted payload. |
| `CookieCodec.CookieCarries` | sessions/securecookie.go:180-196 | What is written is the encoding of date, field and the MAC over name, date and field, separated by bars; the field is the encoding of the payload, or of the IV followed by every payload byte combined with its keystream byte. |
| `CookieCodec.DecodeAcceptsIff` | sessions/securecookie.go:213-268 | A cookie is read as a value if and only if it is short enough, comes apart into such fields with the right MAC, its date is a number inside the window, and its field opens to a payload that deserializes to that value. |
| `CookieCodec.Sub64Wraps` | sessions/securecookie.go:246-252 | Subtraction of int64 times is exact, or off by 2^64 in the direction of the overflow. |
| `CookieCodec.AgeWindow` | sessions/securecookie.go:241-252 | Without int64 overflow the age check is the plain window, and too new is told from expired. |
| `CookieCodec.AcceptedMessageUnique` | sessions/securecookie.go:213-268 | Two accepted cookies with the same authenticated message carry the same name, date and value. |
| `CookieCodec.SecureCookie.constructor` | sessions/securecookie.go:45-61 | The settings and remembered error of a new codec: at most 4096 bytes and 30 days, a cipher exactly for a fitting block key, an error exactly for a missing hash key or an unfitting block key. |
| `CookieCodec.SecureCookie.EncodeCookie` | sessions/securecookie.go:169-203 | Succeeds exactly when a hash key is set, no error is remembered, the value serializes, an IV is there if needed and the result is within the limit; the cookie then carries exactly the fields of `CookieCarries`, encrypted byte by byte when a cipher is set; only the remembered error may change. |
| `CookieCodec.SecureCookie.DecodeCookie` | sessions/securecookie.go:213-268 | The answer of the decoding specification; only the remembered error may change. |
| `CookieCodec.DecodeMulti` | sessions/securecookie.go:497-511 | Succeeds if and only if some codec accepts, with the first accepting codec's value; otherwise every codec's error, in order. |
| `CookieCodec.ForeignMacRejects` | sessions/securecookie.go:230-239 | A codec whose MAC differs on the message rejects the cookie. |
| `CookieCodec.SurvivesRotation` | sessions/securecookie.go:457-511 | A cookie written under a retained key pair is read back by the list when the earlier keys' MACs differ on it. |
| `CookieCodec.CodecsFromPairs` | sessions/securecookie.go:457-467 | One codec per hash key, each with the block key that follows it, an odd last one without. |

## Left out

- SQL text, drivers, isolation and connection plumbing: each statement has its PostgreSQL meaning (primary key, ON CONFLICT, cascade). SQLite has no cascade on the closure table (dao/init.go:395-406).
- A failing COMMIT: the services ignore its error, so a transaction here either commits or rolls back.
- `TenantAdd` as a step of the tree: it writes no closure row, so such a tenant lies outside the forest until repair gives it a self row; `MoveKeepsForestIff` says what a move does to it before that.
- `user_closure`, and of the root user row that seeding writes everything but uid and tenant.
- `TenantCountByAncestorID`: it counts a column the closure table does not have.
- Organizations of a deleted tenant: `AdminTenantDelete` does not remove them, and nothing here claims an organization's tenant is alive.
- Calls that grant roles without a membership check (face/access/access_role.go:41, face/admin/admin_user.go:255, init_env.go:120): they lie outside the statement that every role has its membership.
- `EncodeMulti`, NopEncoder's reuse of the caller's buffer, and the option setters: serializers return fresh bytes and codecs come from `CodecsFromPairs` or the constructor.
- HMAC, AES, gob and JSON: parameters. Round trips assume that deserializing undoes serializing for the value at hand and, for rotation, that the earlier keys' MACs differ on the message.
- Casbin internals: the model has the matcher, the inheritance of roles up to its depth limit and the tuple sets.
- One cached tenant pointer shared between goroutines (service/tenant.service.go:137): every caller has its own snapshot; writes get a fresh update_time each.
- The department cache: it is written and deleted, never read.
- Tables that change between two page queries of one listing: each listing loop sees one state of the tables.
- HTTP handlers, SMS, WeChat and Alipay clients, logging, configuration loading, name and account validation, migration tools and `cmd` scripts. Validation in `AdminTenantNew` is one boolean.
- Failing reads: they change no table and end a call with an error before its next write.
- Floating-point ids outside the uint64 range in stored departments.
- TenantAdmin.DeleteUsersByTenant: models the users table only; what TenantUserDel does to memberships and roles is in `OrgService.Store.TenantUserDel`.
- TenantAdmin.AdminTenantNew: the name, type, account and duplicate checks are one boolean, and of the administrator's row only uid and tenant are modelled.
- TenantAdmin.Database.TenantListByAncestorID: lists each descendant once with its depth; the join's other columns are not modelled.
- OrgService.Store.TenantUserAdd: without the department assignment and the disabling at its end, whose errors the source ignores; departments are in `Departments`.
- OrgService.Store.TenantUserLeaveOrg: without its department clean-up, whose error the source ignores; `Departments.ReplacedMembers` covers it.
- OrgService.Store.OrgCreate: the name is taken as already trimmed, and a name clash is the lookup's answer.
- TenantCache.Store.New: takes the name and account checks as passed.
