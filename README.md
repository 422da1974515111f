# Clinic POS core in Dafny

This project models the back end of Clinic POS, a multi-tenant clinic
point-of-sale API, together with the browser session helper of its web client.
Data is split by tenant. Each tenant has branches, users and patients; a user
is linked to branches and holds one of three roles (Admin, User, Viewer).
Requests carry a signed bearer token. The token's claims name the user's
tenant, role and branches. The patient and branch endpoints, user creation
and branch assignment are confined to the tenant the token names. The tenant
listing and registration are anonymous. Role change and tenant reassignment
are open to any Admin and act on a user of any tenant.

The model covers:

- **Entities and the schema** (`Entities`, `Schema`): rows for tenants,
  branches, users, user-branch links and patients, each as a datatype. The
  database is a record of five row sequences. `Schema.Enforced` states what
  the database itself enforces: primary keys, the unique indexes (tenant code,
  username, tenant and phone number, user and branch pair), column lengths and
  foreign keys. `Schema.Consistent` adds the rules the endpoints keep on top:
  a patient's branch belongs to the patient's tenant. The schema's delete
  behaviours are modelled too: cascade, and set-null for a patient's branch.
  So is the patient query filter that hides other tenants' patients.
- **Identifiers** (`Guids`): a GUID is 32 hex digits. `Format` writes the
  36-character hyphenated text that goes into token claims and cache keys.
  `TryParse` reads it back.
- **The request pipeline** (`Policies`, `Tenancy`, `Http`, `Endpoints`):
  - authentication gives 401 without a valid token;
  - the `CanCreatePatient` and `CanViewPatient` role policies give 403;
  - the tenant is resolved from the first `TenantId` claim; on the endpoints
    that use it (patients, branches, user creation, branch assignment) a
    missing or unparsable claim also gives 403;
  - the data annotations on the request DTOs give 400;
  - then the controller action runs.
- **Patients** (`Patients`): creating a patient checks the branch and
  enforces the per-tenant phone uniqueness (409). A successful create evicts
  the tenant's "all" list and the list of the patient's branch. The list endpoint serves a cache entry when one
  exists; otherwise it queries newest first and fills the entry.
- **Branches** (`Branches`): the tenant's branches sorted by name.
- **Accounts** (`Accounts`): tenant listing, registration, login (token
  claims and the branch join), user creation by an Admin, role change, branch
  assignment and tenant reassignment.
- **Start-up seeding** (`Seeding`): two tenants, four branches, four users,
  their links and three patients. Seeding runs only when no user is named
  `admin@aura`, and saves in two batches.
- **A stateful store** (`Store.ClinicStore`): a class whose fields are the
  tables and the cache. Each endpoint is a method that updates those fields.
  Each method is proved to agree with the functional model of its endpoint,
  and to keep the store's invariants.
- **The browser session** (`Session`): the session-storage helper of the web
  client, as a class over a string map.

Time, fresh identifiers, password hashing and token signing enter the model
as parameters:

- `now` is the current time;
- `newId(k)` is the k-th identifier a request generates;
- `digest` is the stored password hash;
- `verify` is the password check;
- `jti` is the token id;
- a token's `valid` bit stands for signature and lifetime validation.

## Model

| member | source | states |
|---|---|---|
| Guids.DigitPosition | src/backend/ClinicPos.Api/Infrastructure/ITenantContext.cs:22 | Each of the 32 hex digits of a GUID has a position in the 36-character text, and that position is not a hyphen. |
| Guids.DigitIndex | src/backend/ClinicPos.Api/Infrastructure/ITenantContext.cs:22 | Each non-hyphen position of the text holds a hex digit. DigitIndex is the inverse of DigitPosition. |
| Guids.HexValueOfDigit | src/backend/ClinicPos.Api/Infrastructure/ITenantContext.cs:22 | Reading the hex digit written for a nibble gives that nibble back. |
| Guids.Format | src/backend/ClinicPos.Api/Controllers/AuthController.cs:259-269 | The text of a GUID is 36 characters long and contains no ':'. This is why it can sit between the ':' separators of a cache key. |
| Guids.TryParse | src/backend/ClinicPos.Api/Infrastructure/ITenantContext.cs:17-24 | Parsing succeeds exactly when the text is present and in hyphenated form. The parsed digits are the hex values at the digit positions. |
| Guids.ParseFormat | src/backend/ClinicPos.Api/Controllers/AuthController.cs:259-269 | A GUID written into a claim parses back to the same GUID. |
| Guids.FormatInjective | src/backend/ClinicPos.Api/Controllers/PatientsController.cs:110-111 | Different GUIDs have different texts. |
| Roles.Parse | src/backend/ClinicPos.Api/Controllers/AuthController.cs:116-118 | A role name is accepted exactly when it is one of the three role names, and the accepted role has that name. |
| Roles.ParseName | src/backend/ClinicPos.Api/Domain/Entities/User.cs:14-19 | Each of the three role constants parses back to its own role. |
| Accounts.InvalidRoleErrorListsRoles | src/backend/ClinicPos.Api/Controllers/AuthController.cs:116-118 | The invalid-role message lists Admin, User and Viewer, joined by ", ". |
| Text.ToUpper | src/backend/ClinicPos.Api/Controllers/AuthController.cs:42 | Upper-casing keeps the length and maps every character on its own. |
| Text.ToUpperIdempotent | src/backend/ClinicPos.Api/Controllers/AuthController.cs:78 | Upper-casing a tenant code twice gives the same code as doing it once. |
| Text.OrdinalLeTotal | src/backend/ClinicPos.Api/Controllers/BranchesController.cs:30 | Any two strings are comparable in ordinal order. |
| Text.OrdinalLeTransitive | src/backend/ClinicPos.Api/Controllers/AuthController.cs:32 | Ordinal order is transitive. |
| Text.OrdinalLeAntisymmetric | src/backend/ClinicPos.Api/Controllers/BranchesController.cs:30 | Strings that are ordinal-equal are equal. |
| Text.Join | src/backend/ClinicPos.Api/Controllers/AuthController.cs:259 | Joining no parts gives "", joining one part gives that part, and joining more puts the separator between the first part and the join of the rest. |
| Text.JoinSnoc | src/backend/ClinicPos.Api/Controllers/AuthController.cs:259 | Joining one more part appends the separator and that part, so the parts are also joined left to right. |
| Sequences.Where | src/backend/ClinicPos.Api/Controllers/BranchesController.cs:29 | A filter keeps exactly the elements that pass the predicate, and never more than it was given; order and multiplicity are fixed by Sequences.WhereSnoc. |
| Sequences.WhereSnoc | src/backend/ClinicPos.Api/Controllers/BranchesController.cs:29 | Filtering a table with one more row at the end gives the filter of the shorter table, then that row if it passes: the filter keeps the order and multiplicity of what it keeps. |
| Sequences.First | src/backend/ClinicPos.Api/Controllers/AuthController.cs:42 | The result is absent exactly when no element passes. Otherwise it is the earliest element that passes. |
| Sequences.WhereAll | src/backend/ClinicPos.Api/Controllers/PatientsController.cs:91 | Filtering rows that all pass returns them unchanged. |
| Sequences.WhereUnique | src/backend/ClinicPos.Api/Infrastructure/Data/ClinicPosDbContext.cs:62 | Filtering keeps the uniqueness of any key. |
| Sequences.UniqueSnoc | src/backend/ClinicPos.Api/Infrastructure/Data/ClinicPosDbContext.cs:87 | Appending a row keeps a unique key unique exactly when no existing row has the new row's key. |
| Sequences.UniqueAppend | src/backend/ClinicPos.Api/Infrastructure/Data/ClinicPosDbContext.cs:87 | Appending rows whose keys are unique among themselves and new to the table keeps the key unique. |
| Sequences.UniqueUpdate | src/backend/ClinicPos.Api/Infrastructure/Data/ClinicPosDbContext.cs:87 | Replacing a row with one that has the same key keeps the key unique. |
| Sequences.DistinctCard | src/backend/ClinicPos.Api/Controllers/AuthController.cs:124-131 | The number of distinct ids in a list is at most its length. It equals the length exactly when the list has no repeats. |
| Sorting.SortBy | src/backend/ClinicPos.Api/Controllers/BranchesController.cs:30 | Sorting returns a permutation of its input. |
| Sorting.SortBySorted | src/backend/ClinicPos.Api/Controllers/PatientsController.cs:97 | Under a total preorder, the sorted result is ordered. |
| Tenancy.FindFirst | src/backend/ClinicPos.Api/Infrastructure/ITenantContext.cs:21 | The claim lookup fails exactly when no claim has the type, compared ignoring case. Otherwise it returns the value of the first matching claim. |
| Tenancy.ContextTenantId | src/backend/ClinicPos.Api/Infrastructure/ITenantContext.cs:17-24 | Without an HTTP context there is no tenant. Otherwise a tenant is found exactly when the first TenantId claim exists and is a hyphenated GUID. |
| Tenancy.ClaimTenantId | src/backend/ClinicPos.Api/Controllers/AuthController.cs:282-286 | A tenant is found exactly when the first TenantId claim exists and is a hyphenated GUID, and its digits are the claim's hex digits. |
| Tenancy.NoContextNoTenant | src/backend/ClinicPos.Api/Infrastructure/ITenantContext.cs:21-22 | Without an HTTP context there is no tenant. |
| Tenancy.ResolversAgree | src/backend/ClinicPos.Api/Controllers/BranchesController.cs:37-41 | The tenant context and the controllers' GetTenantId resolve the same tenant from the same user. |
| Tenancy.NoClaimNoTenant | src/backend/ClinicPos.Api/Infrastructure/ITenantContext.cs:21-22 | A user without a TenantId claim has no tenant. |
| Tenancy.UnparseableClaimNoTenant | src/backend/ClinicPos.Api/Infrastructure/ITenantContext.cs:22 | A TenantId claim that is not a GUID gives no tenant. |
| Tenancy.ClaimOfTenant | src/backend/ClinicPos.Api/Controllers/AuthController.cs:266 | The first TenantId claim, holding a formatted GUID, resolves to that GUID. |
| Policies.Admit | src/backend/ClinicPos.Api/Program.cs:115-116 | Admission to anything other than an anonymous endpoint always comes with an authenticated user. |
| Policies.UnauthenticatedIsNeverForbidden | src/backend/ClinicPos.Api/Program.cs:59-72 | A missing or invalid token gives 401 on every protected endpoint, never 403. |
| Policies.CreatePolicyRoles | src/backend/ClinicPos.Api/Program.cs:77-78 | CanCreatePatient holds exactly for the Admin and User roles. |
| Policies.ViewPolicyRoles | src/backend/ClinicPos.Api/Program.cs:80-81 | CanViewPatient holds exactly for the Admin, User and Viewer roles. |
| Policies.CreateImpliesView | src/backend/ClinicPos.Api/Program.cs:75-82 | Anyone admitted to create patients is admitted to list them. |
| Policies.ViewerMayListButNotCreate | src/backend/ClinicPos.Tests/PatientsTests.cs:94-106 | A token whose only role claim is Viewer is refused patient creation with 403, and is admitted to the patient list. |
| Policies.SingleRoleGrants | src/backend/ClinicPos.Api/Program.cs:75-82 | With one role claim, every role may list patients. Creating is allowed exactly for Admin and User. |
| Schema.SaveError | src/backend/ClinicPos.Api/Infrastructure/Data/ClinicPosDbContext.cs:32-111 | A save fails exactly when the new state breaks a key, an index, a column length or a foreign key. A unique-index failure is reported only when the columns fit. |
| Schema.VisiblePatients | src/backend/ClinicPos.Api/Infrastructure/Data/ClinicPosDbContext.cs:75 | The tenant filter shows exactly the patients that pass it. |
| Schema.VisibleOnlyCurrentTenant | src/backend/ClinicPos.Api/Infrastructure/Data/ClinicPosDbContext.cs:75 | With a current tenant, the filter shows exactly that tenant's patients. |
| Schema.VisibleWithoutTenant | src/backend/ClinicPos.Api/Infrastructure/Data/ClinicPosDbContext.cs:75 | With no current tenant, the filter shows every patient. |
| Schema.DetachAll | src/backend/ClinicPos.Api/Infrastructure/Data/ClinicPosDbContext.cs:69-72 | Detaching deleted branches changes each patient on its own, and keeps the count and the order. |
| Schema.DetachAllKeepsKeys | src/backend/ClinicPos.Api/Infrastructure/Data/ClinicPosDbContext.cs:62 | Clearing patients' branches keeps the id key and the tenant-phone index unique. Every detached row comes from an original row. |
| Schema.DetachedPatientFits | src/backend/ClinicPos.Api/Infrastructure/Data/ClinicPosDbContext.cs:64-72 | A patient whose branch was deleted still fits its columns and keeps its tenant. Any branch it still has belongs to that tenant. |
| Schema.DeleteBranchUnique | src/backend/ClinicPos.Api/Infrastructure/Data/ClinicPosDbContext.cs:107-110 | Deleting a branch keeps every unique index. |
| Schema.DeleteBranchConsistent | src/backend/ClinicPos.Api/Infrastructure/Data/ClinicPosDbContext.cs:69-72 | Deleting a branch keeps the store consistent. |
| Schema.DeleteBranchEffect | src/backend/ClinicPos.Api/Infrastructure/Data/ClinicPosDbContext.cs:69-72 | Deleting a branch keeps the store consistent. The branches left are exactly the other branches, and the links left are exactly the links to other branches. The branch is cleared from exactly the patients that had it, in place. Tenants and users are unchanged. |
| Schema.DeleteTenantUnique | src/backend/ClinicPos.Api/Infrastructure/Data/ClinicPosDbContext.cs:48-51 | Deleting a tenant keeps every unique index. |
| Schema.DeleteTenantPatients | src/backend/ClinicPos.Api/Infrastructure/Data/ClinicPosDbContext.cs:64-67 | After a tenant is deleted, every remaining patient belongs to a surviving tenant and fits its columns. Its branch, if any, exists in its own tenant. |
| Schema.DeleteTenantForeignKeys | src/backend/ClinicPos.Api/Infrastructure/Data/ClinicPosDbContext.cs:48-51 | Deleting a tenant leaves no dangling foreign key. |
| Schema.DeleteTenantKeepsPatient | src/backend/ClinicPos.Api/Infrastructure/Data/ClinicPosDbContext.cs:64-67 | Patients of other tenants survive the delete. |
| Schema.DeleteTenantEffect | src/backend/ClinicPos.Api/Infrastructure/Data/ClinicPosDbContext.cs:48-51 | Deleting a tenant keeps the store consistent. The tenants left are exactly the other tenants. Its branches, users and patients go, and other tenants' ones stay. The links left are exactly those whose user and branch both survive. |
| Patients.CacheKey | src/backend/ClinicPos.Api/Controllers/PatientsController.cs:110-111 | A list key has the fixed length of its shape, and holds the tenant's GUID text at characters 7 to 43. |
| Patients.CacheKeyInjective | src/backend/ClinicPos.Api/Controllers/PatientsController.cs:110-111 | Different tenant and branch pairs never share a cache key. |
| Patients.ToResponseInjective | src/backend/ClinicPos.Api/Controllers/PatientsController.cs:123-132 | Distinct patients have distinct responses. |
| Patients.NewerOrSameTotalPreorder | src/backend/ClinicPos.Api/Controllers/PatientsController.cs:97 | "Created no earlier" is a total preorder. |
| Patients.InsertOldest | src/backend/ClinicPos.Api/Controllers/PatientsController.cs:97 | A patient created before every listed one is inserted at the end of a newest-first list. |
| Patients.SortTwoNewestFirst | src/backend/ClinicPos.Api/Controllers/PatientsController.cs:97 | Two patients created one after the other sort with the later one first. |
| Patients.SortThreeNewestFirst | src/backend/ClinicPos.Api/Controllers/PatientsController.cs:97 | Three patients created one after another sort in reverse creation order. |
| Patients.QueryNewestFirst | src/backend/ClinicPos.Api/Controllers/PatientsController.cs:91-99 | The list query over three patients of one tenant, created one after another, returns them newest first. |
| Patients.Listing | src/backend/ClinicPos.Api/Controllers/PatientsController.cs:91-99 | A listing has one response per patient that the query matches. |
| Patients.ListingSpec | src/backend/ClinicPos.Api/Controllers/PatientsController.cs:91-99 | A listing holds exactly the tenant's patients on the requested branch (all of them when no branch is given). Every entry comes from a patient. Entries are newest first. |
| Patients.ListingIgnores | src/backend/ClinicPos.Api/Controllers/PatientsController.cs:113-121 | Adding a patient outside a key's tenant and branch leaves that key's listing unchanged. This is why the eviction is sufficient. |
| Patients.EvictionKeepsCoherent | src/backend/ClinicPos.Api/Controllers/PatientsController.cs:113-121 | Removing cache entries never makes the cache disagree with the table. |
| Patients.CoherentIsScoped | src/backend/ClinicPos.Api/Controllers/PatientsController.cs:83-111 | A coherent cache is tenant-scoped: each list under a tenant's key holds only that tenant's patients. |
| Patients.EvictionKeepsScoped | src/backend/ClinicPos.Api/Controllers/PatientsController.cs:113-121 | Removing cache entries keeps the cache tenant-scoped. |
| Patients.Evicted | src/backend/ClinicPos.Api/Controllers/PatientsController.cs:113-121 | The evicted keys are exactly two: the tenant's "all" key and the patient's branch key, so no key of another tenant or branch. |
| Patients.Create | src/backend/ClinicPos.Api/Controllers/PatientsController.cs:30-73 | A create without a tenant gives 403. A foreign branch gives 400. Any failure changes nothing. A success appends exactly the new patient, evicts exactly Evicted, and answers with the new patient's response. |
| Patients.ValidRequestFits | src/backend/ClinicPos.Api/Application/PatientDtos.cs:5-11 | A request that passes the DTO annotations produces a patient that fits the columns. |
| Patients.CreateConflictIffPhoneTaken | src/backend/ClinicPos.Tests/PatientsTests.cs:63-80 | A valid create in a consistent store gives 409 exactly when the tenant already has a patient with that phone number. |
| Patients.CreateCreatedIffPhoneFree | src/backend/ClinicPos.Tests/PatientsTests.cs:63-80 | When the tenant exists too, a valid create succeeds exactly when the tenant has no patient with that phone number. The same number in another tenant does not block it. |
| Patients.CreateKeepsConsistent | src/backend/ClinicPos.Api/Controllers/PatientsController.cs:38-67 | Creating a patient keeps the store consistent. |
| Patients.CreateKeepsCoherent | src/backend/ClinicPos.Api/Controllers/PatientsController.cs:69-70 | After a create, every cached list still equals the query it caches. |
| Patients.CreateKeepsScoped | src/backend/ClinicPos.Api/Controllers/PatientsController.cs:69-70 | A create, successful or not, keeps the cache tenant-scoped. |
| Patients.List | src/backend/ClinicPos.Api/Controllers/PatientsController.cs:77-108 | Listing without a tenant gives 403. A cache hit returns the cached list unchanged. A miss returns the query and stores it under the key. The tables never change. |
| Patients.ListServesQuery | src/backend/ClinicPos.Api/Controllers/PatientsController.cs:83-107 | With a coherent cache, the list endpoint always answers the current query, and the cache stays coherent. |
| Patients.ListStaysInTenant | src/backend/ClinicPos.Api/Controllers/PatientsController.cs:83-107 | With a tenant-scoped cache, stale or not, every patient a tenant's list returns belongs to that tenant, and the cache stays tenant-scoped. |
| Patients.CreatedPatientListed | src/backend/ClinicPos.Tests/PatientsTests.cs:32-59 | A newly created patient appears in a listing exactly for its own tenant and for the "all" or its own branch query. |
| Branches.NameNoLaterTotalPreorder | src/backend/ClinicPos.Api/Controllers/BranchesController.cs:30 | Ordering by name is a total preorder. |
| Branches.ListBranches | src/backend/ClinicPos.Api/Controllers/BranchesController.cs:21-35 | The branch list answers 403 exactly when there is no tenant. Otherwise it answers 200. |
| Branches.ListBranchesSpec | src/backend/ClinicPos.Api/Controllers/BranchesController.cs:28-32 | The tenant's list has one entry per tenant branch, holds every tenant branch and nothing else, and is sorted by name. |
| Branches.ListedBranches | src/backend/ClinicPos.Api/Controllers/BranchesController.cs:28-31 | The list's length and its membership in both directions match the tenant's branches. |
| Branches.ListedBranchesByName | src/backend/ClinicPos.Api/Controllers/BranchesController.cs:30 | The list is in ordinal name order. |
| Branches.ListBranchesIsolated | src/backend/ClinicPos.Api/Controllers/BranchesController.cs:29 | No branch of another tenant is ever listed. |
| Accounts.UserIndex | src/backend/ClinicPos.Api/Controllers/AuthController.cs:167 | The index is absent exactly when no user has the id. Otherwise it points at a user with that id. |
| Accounts.Infos | src/backend/ClinicPos.Api/Controllers/AuthController.cs:89 | Projecting branches to (Id, Name) keeps their order. |
| Accounts.JoinBranches | src/backend/ClinicPos.Api/Controllers/AuthController.cs:87-90 | The join holds exactly the branches that match some link. |
| Accounts.LinkedBranchesSpec | src/backend/ClinicPos.Api/Controllers/AuthController.cs:307-324 | Where links point at existing branches, the ids a user's responses list are exactly the user's linked branch ids. |
| Accounts.UserResponseOf | src/backend/ClinicPos.Api/Controllers/AuthController.cs:307-324 | A user response carries the user's id, tenant and role name. Where links point at existing branches, its branch ids are exactly the user's linked branches. |
| Accounts.CodeNoLaterTotalPreorder | src/backend/ClinicPos.Api/Controllers/AuthController.cs:32 | Ordering tenants by code is a total preorder. |
| Accounts.GetTenants | src/backend/ClinicPos.Api/Controllers/AuthController.cs:28-37 | The tenant listing always answers 200 with one entry per tenant. |
| Accounts.GetTenantsSpec | src/backend/ClinicPos.Api/Controllers/AuthController.cs:28-37 | The tenant listing has one entry per tenant: every tenant appears and nothing else does, in code order. |
| Accounts.Register | src/backend/ClinicPos.Api/Controllers/AuthController.cs:39-73 | A registration that does not create changes nothing. |
| Accounts.RegisterOutcome | src/backend/ClinicPos.Api/Controllers/AuthController.cs:39-73 | An unknown tenant code gives 400, and a taken username gives 409. A Created registration appends exactly one Viewer user of the code's tenant, with the full name set to the username. It needs a free name and a name and digest that fit their columns. A link to the given branch, which must exist, is added when one is given, and nothing else changes. |
| Accounts.NewUserEnforced | src/backend/ClinicPos.Api/Controllers/AuthController.cs:58-70 | Saving a new user that fits its columns, in an existing tenant, with an unused id and name and its own links to existing branches, passes every database constraint. |
| Accounts.RegisterSucceeds | src/backend/ClinicPos.Api/Controllers/AuthController.cs:39-73 | On a consistent store, a known code, a free name, a name and digest that fit, fresh ids and an existing branch (when given) always give Created. |
| Accounts.LoginFailuresAlike | src/backend/ClinicPos.Api/Controllers/AuthController.cs:82-84 | An unknown username and a wrong password get the same 401 answer. |
| Accounts.DifferentTypes | src/backend/ClinicPos.Api/Controllers/AuthController.cs:259-269 | Claim types of different lengths never match. |
| Accounts.TokenHasOneRole | src/backend/ClinicPos.Api/Controllers/AuthController.cs:259-269 | An issued token holds exactly one role claim. |
| Accounts.TokenTenant | src/backend/ClinicPos.Api/Controllers/AuthController.cs:266 | An issued token resolves to the user's tenant. |
| Accounts.Login | src/backend/ClinicPos.Api/Controllers/AuthController.cs:75-105 | An unknown tenant code gives 400, and any other failure gives 401. A success names the code's tenant and a user of that tenant with the requested name whose password verifies; the response carries that user's name, full name, tenant, role, the branches linked to the user (in link order) and a token whose branch claim lists those same branches. |
| Accounts.LoginBranches | src/backend/ClinicPos.Api/Controllers/AuthController.cs:87-104 | On a store whose usernames are unique and whose links point at existing branches, the branch ids a successful login lists are exactly the branches linked to the user with that name. |
| Accounts.TokenGrants | src/backend/ClinicPos.Api/Controllers/AuthController.cs:259-269 | An issued token resolves to the user's tenant and admits the user to the patient list. It admits patient creation exactly for Admin and User. |
| Accounts.LoginTokenGrants | src/backend/ClinicPos.Api/Controllers/AuthController.cs:75-105 | The token a login returns grants what its role promises, in the tenant the response names. |
| Accounts.LoginSucceeds | src/backend/ClinicPos.Api/Controllers/AuthController.cs:75-105 | Login succeeds for the only user with that name in the tenant when the password verifies. |
| Accounts.RegisterThenLogin | src/backend/ClinicPos.Api/Controllers/AuthController.cs:39-105 | A user who registered can log in with the same password and tenant code. |
| Accounts.BranchCountCheck | src/backend/ClinicPos.Api/Controllers/AuthController.cs:124-131 | The branch-count check passes exactly when the ids are distinct and all belong to the tenant. |
| Accounts.NoIdsNoCount | src/backend/ClinicPos.Api/Controllers/AuthController.cs:124-131 | An empty branch list counts zero, so it passes the check. |
| Accounts.NewLinks | src/backend/ClinicPos.Api/Controllers/AuthController.cs:144-151 | User creation adds one link per requested branch, in request order, for the new user, with ids newId(1), newId(2), and so on. |
| Accounts.CreateUser | src/backend/ClinicPos.Api/Controllers/AuthController.cs:108-156 | Creating a user answers 403 without a tenant, then 400 for an unknown role, then 409 for a taken username, then 400 when the branch count check fails. Any failure changes nothing. |
| Accounts.CreateUserOutcome | src/backend/ClinicPos.Api/Controllers/AuthController.cs:133-153 | A successful create appends exactly the new user, in the caller's tenant and with the requested role, plus one link per requested branch. All requested branches are distinct and belong to the tenant. |
| Accounts.NewLinksUnique | src/backend/ClinicPos.Api/Controllers/AuthController.cs:142-153 | The links for distinct branches with fresh link ids, for a user with no links yet, repeat no link id and no pair. |
| Accounts.CreateUserSucceeds | src/backend/ClinicPos.Api/Controllers/AuthController.cs:108-156 | On a consistent store, for an existing tenant, a valid role, a free name, values that fit, distinct branches of the tenant and fresh ids, user creation always gives Created. |
| Accounts.AssignRole | src/backend/ClinicPos.Api/Controllers/AuthController.cs:159-175 | A role change answers 400 for an unknown role and 404 for an unknown user. A success replaces that user's role and nothing else. |
| Accounts.UpdateUserKeepsEnforced | src/backend/ClinicPos.Api/Controllers/AuthController.cs:170-171 | Replacing a user row with one that keeps its id and username keeps the schema's constraints. |
| Accounts.AssignRoleSucceeds | src/backend/ClinicPos.Api/Controllers/AuthController.cs:159-175 | A known role for an existing user always succeeds, and keeps the store consistent. |
| Accounts.MissingLinks | src/backend/ClinicPos.Api/Controllers/AuthController.cs:206-216 | Adding branches creates links only for requested branches the user does not have. It adds one for each of those, and none when all are present. |
| Accounts.MissingLinksIds | src/backend/ClinicPos.Api/Controllers/AuthController.cs:206-216 | The link added for the k-th requested branch has id newId(k) and that branch. |
| Accounts.MissingLinksKeys | src/backend/ClinicPos.Api/Controllers/AuthController.cs:206-216 | For distinct branches and distinct link ids, the added links repeat no link id and no pair. |
| Accounts.MissingLinksAppend | src/backend/ClinicPos.Api/Controllers/AuthController.cs:200-218 | For distinct branches and fresh link ids, the added links repeat no link id and no pair already stored. |
| Accounts.NewLinksEnforced | src/backend/ClinicPos.Api/Controllers/AuthController.cs:218 | Saving links between existing users and branches that repeat no link id and no pair passes every database constraint. |
| Accounts.AddBranches | src/backend/ClinicPos.Api/Controllers/AuthController.cs:178-221 | Adding branches answers 403 without a tenant, 404 for an unknown user, 403 for another tenant's user, and then 400 when the branch count check fails. Any failure changes nothing. |
| Accounts.AddBranchesUnion | src/backend/ClinicPos.Api/Controllers/AuthController.cs:182-218 | On success the user is in the caller's tenant and the requested ids are distinct branches of that tenant. The user's branch set becomes the old set united with them, and user-branch pairs stay unique. |
| Accounts.AddBranchesIdempotent | src/backend/ClinicPos.Api/Controllers/AuthController.cs:201-216 | Repeating a successful branch assignment gives the same answer and changes nothing more. |
| Accounts.AddBranchesSucceeds | src/backend/ClinicPos.Api/Controllers/AuthController.cs:178-221 | On a consistent store, for a user of the caller's tenant, distinct branches of that tenant and fresh link ids, branch assignment always succeeds. |
| Accounts.AssignTenant | src/backend/ClinicPos.Api/Controllers/AuthController.cs:224-251 | An unknown user gives 404. A success moves the user to the requested tenant. It adds the branch link only when the link is missing, and nothing else changes. If the first save fails, the answer is 500 and nothing changes. If the second save fails, the answer is 500 and the move stays. |
| Accounts.AssignTenantToUnknownTenant | src/backend/ClinicPos.Api/Controllers/AuthController.cs:232-233 | On a consistent store, moving a known user to a tenant that does not exist fails the first save: the answer is 500 and nothing changes. |
| Accounts.AssignTenantLinksBranch | src/backend/ClinicPos.Api/Controllers/AuthController.cs:224-251 | On a consistent store, moving a known user to an existing tenant with an existing branch the user is not linked to succeeds and adds exactly one link, user to branch, at the end of the link table. |
| Accounts.AssignTenantAlreadyLinked | src/backend/ClinicPos.Api/Controllers/AuthController.cs:236-250 | Moving a known user to an existing tenant with a branch the user is already linked to succeeds and leaves the link table unchanged. |
| Accounts.AssignTenantCrossesTenants | src/backend/ClinicPos.Api/Controllers/AuthController.cs:224-251 | An Admin can move any user to any existing tenant, including one outside the Admin's own. |
| Accounts.AssignTenantKeepsConsistent | src/backend/ClinicPos.Api/Controllers/AuthController.cs:224-251 | Tenant reassignment keeps the store consistent, even when the second save fails. |
| Accounts.AccountSaveKeepsConsistent | src/backend/ClinicPos.Api/Controllers/AuthController.cs:70 | A save that passes the database's checks and leaves branches and patients alone keeps the store consistent. |
| Accounts.RegisterKeepsConsistent | src/backend/ClinicPos.Api/Controllers/AuthController.cs:39-73 | Registration keeps the store consistent. |
| Accounts.CreateUserKeepsConsistent | src/backend/ClinicPos.Api/Controllers/AuthController.cs:108-156 | User creation keeps the store consistent. |
| Accounts.AddBranchesKeepsConsistent | src/backend/ClinicPos.Api/Controllers/AuthController.cs:178-221 | Branch assignment keeps the store consistent. |
| Endpoints.PostPatient | src/backend/ClinicPos.Api/Controllers/PatientsController.cs:30-73 | A patient is created only for a valid token carrying the Admin or User role and a request that passes validation. Any other answer changes nothing. |
| Endpoints.GetPatients | src/backend/ClinicPos.Api/Controllers/PatientsController.cs:75-108 | The patient list needs a valid token and never changes the tables. |
| Endpoints.GetBranches | src/backend/ClinicPos.Api/Controllers/BranchesController.cs:21-35 | The branch list needs a valid token. |
| Endpoints.PostRegister | src/backend/ClinicPos.Api/Controllers/AuthController.cs:39-73 | A registration is created only for a request that passes validation. Any other answer changes nothing. |
| Endpoints.PostLogin | src/backend/ClinicPos.Api/Controllers/AuthController.cs:75-105 | A login succeeds only for a request that passes validation. |
| Endpoints.PostUser | src/backend/ClinicPos.Api/Controllers/AuthController.cs:108-156 | A user is created only with a valid token carrying the Admin role. Any other answer changes nothing. |
| Endpoints.PutRole | src/backend/ClinicPos.Api/Controllers/AuthController.cs:159-175 | A role changes only with a valid Admin token and a valid request. Any other answer changes nothing. |
| Endpoints.PostBranches | src/backend/ClinicPos.Api/Controllers/AuthController.cs:178-221 | Branches are added only with a valid Admin token. Any other answer changes nothing. |
| Endpoints.PutTenant | src/backend/ClinicPos.Api/Controllers/AuthController.cs:224-251 | A tenant reassignment succeeds only with a valid Admin token. |
| Endpoints.NoTokenIsChallenged | src/backend/ClinicPos.Tests/PatientsTests.cs:84-90 | Without a valid token, the patient and branch endpoints answer 401 and change nothing. |
| Endpoints.NoTokenNoAdministration | src/backend/ClinicPos.Api/Controllers/AuthController.cs:109-225 | Without a valid token, every administration endpoint answers 401 and changes nothing. |
| Endpoints.AdminAdmission | src/backend/ClinicPos.Api/Controllers/AuthController.cs:109-225 | The Admin-only attribute admits exactly a valid token that carries the Admin role claim. |
| Endpoints.NonAdminIsForbidden | src/backend/ClinicPos.Api/Controllers/AuthController.cs:109-225 | A valid token without the Admin role gets 403 from user creation, role change, branch assignment and tenant reassignment, and nothing changes. |
| Endpoints.PostPatientKeepsInvariants | src/backend/ClinicPos.Api/Controllers/PatientsController.cs:30-73 | Creating patients through the pipeline keeps the store consistent and the cache coherent. |
| Endpoints.GetPatientsKeepsCoherent | src/backend/ClinicPos.Api/Controllers/PatientsController.cs:75-108 | Listing through the pipeline keeps the cache coherent. |
| Endpoints.GetPatientsStaysInTenant | src/backend/ClinicPos.Tests/PatientsTests.cs:32-59 | Whatever the cache's freshness, a patient list answered through the pipeline holds only patients of the token's tenant, and the cache stays tenant-scoped. |
| Endpoints.PostPatientKeepsScoped | src/backend/ClinicPos.Api/Controllers/PatientsController.cs:30-73 | Creating patients through the pipeline keeps the cache tenant-scoped. |
| Endpoints.LoginTokenListsOwnTenant | src/backend/ClinicPos.Tests/PatientsTests.cs:32-59 | The token of a successful login lists exactly its own tenant's patients. |
| Endpoints.TokenListsTenant | src/backend/ClinicPos.Api/Controllers/PatientsController.cs:83-111 | A valid token that may view patients and names tenant t gets, through a coherent cache, exactly the listing of t's patients. |
| Endpoints.ViewerLoginCannotCreate | src/backend/ClinicPos.Tests/PatientsTests.cs:94-106 | A Viewer's login token is refused patient creation with 403, and nothing changes. |
| Endpoints.RegisteredNameFits | src/backend/ClinicPos.Api/Application/AuthDtos.cs:5-11 | A created registration's username respects the declared length limit. |
| Endpoints.PostUserKeepsConsistent | src/backend/ClinicPos.Api/Controllers/AuthController.cs:108-156 | User creation through the pipeline keeps the store consistent. |
| Endpoints.PutRoleKeepsConsistent | src/backend/ClinicPos.Api/Controllers/AuthController.cs:159-175 | Role change through the pipeline keeps the store consistent. |
| Endpoints.PostBranchesKeepsConsistent | src/backend/ClinicPos.Api/Controllers/AuthController.cs:178-221 | Branch assignment through the pipeline keeps the store consistent. |
| Endpoints.PutTenantKeepsConsistent | src/backend/ClinicPos.Api/Controllers/AuthController.cs:224-251 | Tenant reassignment through the pipeline keeps the store consistent. |
| Seeding.ParsesTo | src/backend/ClinicPos.Api/Infrastructure/Data/DbSeeder.cs:10-17 | Text that matches a GUID's formatted text character by character parses to that GUID. |
| Seeding.Tenant1Parses | src/backend/ClinicPos.Api/Infrastructure/Data/DbSeeder.cs:10 | The first fixed tenant id literal parses to the modelled GUID. |
| Seeding.Tenant1BranchAParses | src/backend/ClinicPos.Api/Infrastructure/Data/DbSeeder.cs:11 | That branch id literal parses to the modelled GUID. |
| Seeding.Tenant1BranchBParses | src/backend/ClinicPos.Api/Infrastructure/Data/DbSeeder.cs:12 | That branch id literal parses to the modelled GUID. |
| Seeding.Tenant2Parses | src/backend/ClinicPos.Api/Infrastructure/Data/DbSeeder.cs:15 | The second fixed tenant id literal parses to the modelled GUID. |
| Seeding.Tenant2BranchAParses | src/backend/ClinicPos.Api/Infrastructure/Data/DbSeeder.cs:16 | That branch id literal parses to the modelled GUID. |
| Seeding.Tenant2BranchBParses | src/backend/ClinicPos.Api/Infrastructure/Data/DbSeeder.cs:17 | That branch id literal parses to the modelled GUID. |
| Seeding.SaveBatches | src/backend/ClinicPos.Api/Infrastructure/Data/DbSeeder.cs:83-110 | Seeding's two saves leave the store either unchanged or valid. After the first save, tenants, branches and users are appended; the second save appends links and patients or fails alone. |
| Seeding.SaveBatchesFromEmpty | src/backend/ClinicPos.Api/Infrastructure/Data/DbSeeder.cs:83-110 | From an empty store, with rows that pass the checks, both batches are saved. |
| Seeding.Seed | src/backend/ClinicPos.Api/Infrastructure/Data/DbSeeder.cs:19-111 | An already seeded store is left alone. A store that seeding changes is seeded, valid, and has the two seed tenants appended. |
| Seeding.SeedIdempotent | src/backend/ClinicPos.Api/Infrastructure/Data/DbSeeder.cs:21-22 | Seeding twice is the same as seeding once. |
| Seeding.SeedFailure | src/backend/ClinicPos.Api/Infrastructure/Data/DbSeeder.cs:83-110 | Start-up fails only on an unseeded store. Without a failure an unseeded store gets every seed row; a failure means it did not. |
| Seeding.FixedIdsDistinct | src/backend/ClinicPos.Api/Infrastructure/Data/DbSeeder.cs:10-17 | The six fixed ids are pairwise distinct. |
| Seeding.TenantRows | src/backend/ClinicPos.Api/Infrastructure/Data/DbSeeder.cs:25-30 | The seed tenants fit their columns and have unique ids and codes. |
| Seeding.BranchRows | src/backend/ClinicPos.Api/Infrastructure/Data/DbSeeder.cs:33-40 | The seed branches fit their columns and have unique ids. |
| Seeding.UserRows | src/backend/ClinicPos.Api/Infrastructure/Data/DbSeeder.cs:43-82 | With distinct fresh ids and hashes that fit, the seed users fit their columns and have unique ids and usernames. |
| Seeding.LinkRows | src/backend/ClinicPos.Api/Infrastructure/Data/DbSeeder.cs:86-99 | With distinct fresh ids, the seed links have unique ids and unique user-branch pairs. |
| Seeding.PatientRows | src/backend/ClinicPos.Api/Infrastructure/Data/DbSeeder.cs:102-108 | The seed patients fit their columns and have unique ids and tenant-phone pairs. |
| Seeding.BranchTenantsExist | src/backend/ClinicPos.Api/Infrastructure/Data/DbSeeder.cs:33-40 | Every seed branch belongs to a seed tenant. |
| Seeding.UserTenantsExist | src/backend/ClinicPos.Api/Infrastructure/Data/DbSeeder.cs:43-82 | Every seed user belongs to a seed tenant. |
| Seeding.LinkEndsListed | src/backend/ClinicPos.Api/Infrastructure/Data/DbSeeder.cs:86-99 | Every seed link joins a seed user to a seed branch. |
| Seeding.SeedBranchIds | src/backend/ClinicPos.Api/Infrastructure/Data/DbSeeder.cs:33-40 | All four fixed branch ids are seeded. |
| Seeding.SeedUserIds | src/backend/ClinicPos.Api/Infrastructure/Data/DbSeeder.cs:43-82 | All four seed users' ids are present. |
| Seeding.LinkEndsExist | src/backend/ClinicPos.Api/Infrastructure/Data/DbSeeder.cs:86-99 | Every seed link points at an existing user and branch. |
| Seeding.PatientReferencesExist | src/backend/ClinicPos.Api/Infrastructure/Data/DbSeeder.cs:102-108 | Every seed patient has an existing tenant, and a branch of that tenant. |
| Seeding.SeedLinksWithinTenant | src/backend/ClinicPos.Api/Infrastructure/Data/DbSeeder.cs:86-99 | Every seed user is linked only to branches of the user's own tenant. |
| Seeding.SeedEnforced | src/backend/ClinicPos.Api/Infrastructure/Data/DbSeeder.cs:83-110 | The seeded store passes the database's checks after each of the two saves. |
| Seeding.SeedFromEmpty | src/backend/ClinicPos.Api/Program.cs:98-106 | Seeding an empty store at start-up does not fail and gives exactly the seed data, which is consistent and keeps links within tenants. |
| Seeding.SeedPatientsOwnBranches | src/backend/ClinicPos.Api/Infrastructure/Data/DbSeeder.cs:102-108 | Each seed patient's branch belongs to its tenant. |
| Seeding.SeedPatientsNewestFirst | src/backend/ClinicPos.Api/Infrastructure/Data/DbSeeder.cs:102-108 | The sample patients, built one after another, are listed newest first: the last one built comes first. |
| Seeding.SeedKeepsConsistent | src/backend/ClinicPos.Api/Infrastructure/Data/DbSeeder.cs:19-111 | Seeding any consistent store keeps it consistent. |
| Session.ReadSession | src/frontend/src/lib/auth.ts:3-15 | There is no session outside a browser or without a non-empty token. Otherwise the session carries the stored token. |
| Session.Headers | src/frontend/src/lib/auth.ts:30-36 | The JSON content type is always sent. An Authorization header is sent exactly when there is a token, and it is "Bearer " followed by the token. |
| Session.SetThenGet | src/frontend/src/lib/auth.ts:3-24 | Reading back a stored session gives that session when its token is non-empty, and none otherwise. |
| Session.ClearThenGet | src/frontend/src/lib/auth.ts:26-28 | After clearing, no session is read. |
| Session.MissingFieldsEmpty | src/frontend/src/lib/auth.ts:7-14 | Missing stored fields read as empty strings. |
| Session.ClientCheckMatchesPolicy | src/frontend/src/lib/auth.ts:38-40 | The client's create-patient check accepts exactly the role names the server's CanCreatePatient policy grants. |
| Session.SessionStore.constructor | src/frontend/src/lib/auth.ts:3-28 | A new session store has empty storage. |
| Session.SessionStore.AuthHeaders | src/frontend/src/lib/auth.ts:30-36 | The store's Authorization header is present exactly when a session is stored, and carries its token. |
| Session.SessionStore.SetSession | src/frontend/src/lib/auth.ts:17-24 | Storing a session writes its six fields. Afterwards the store reads that session back, unless the token is empty. |
| Session.SessionStore.ClearSession | src/frontend/src/lib/auth.ts:26-28 | Clearing empties the storage, and no session is read afterwards. |
| Store.LinkEach | src/backend/ClinicPos.Api/Controllers/AuthController.cs:144-151 | The loop produces exactly NewLinks: one link per requested branch, all for the new user. |
| Store.LinkMissing | src/backend/ClinicPos.Api/Controllers/AuthController.cs:206-216 | The loop produces exactly MissingLinks: links only for requested branches the user lacks, and one for each of them. |
| Store.MissingLinksStep | src/backend/ClinicPos.Api/Controllers/AuthController.cs:206-216 | One more requested branch extends the links made so far by a link exactly when the branch is not among the existing ones. |
| Store.ClinicStore.constructor | src/backend/ClinicPos.Api/Program.cs:98-104 | A freshly created store is empty and valid (its empty cache is tenant-scoped) and has a coherent cache. |
| Store.ClinicStore.Commit | src/backend/ClinicPos.Api/Controllers/AuthController.cs:70 | A save replaces the tables and leaves the cache alone. |
| Store.ClinicStore.Seed | src/backend/ClinicPos.Api/Program.cs:105 | The failure returned is exactly the functional seed's failure, the tables become exactly the functional seed result, the cache is untouched and the store stays valid. |
| Store.ClinicStore.CreatePatient | src/backend/ClinicPos.Api/Controllers/PatientsController.cs:30-73 | The answer and the new tables and cache are exactly those of the create pipeline. The store stays valid, with a tenant-scoped cache, and a coherent cache stays coherent. |
| Store.ClinicStore.AddPatient | src/backend/ClinicPos.Api/Controllers/PatientsController.cs:38-72 | The action after admission matches the functional create. It keeps validity, and a coherent cache stays coherent. |
| Store.ClinicStore.Invalidate | src/backend/ClinicPos.Api/Controllers/PatientsController.cs:113-121 | The cache loses exactly the evicted keys, and the tables are untouched. |
| Store.ClinicStore.ListPatients | src/backend/ClinicPos.Api/Controllers/PatientsController.cs:75-108 | The answer and the new cache match the list pipeline. A 200 holds only patients of the token's tenant, even from a stale cache. The store stays valid, and a coherent cache stays coherent. |
| Store.ClinicStore.ServeList | src/backend/ClinicPos.Api/Controllers/PatientsController.cs:83-107 | The action after admission matches the functional list. It always answers 200 with only the given tenant's patients, even from a stale cache. The store stays valid, and a coherent cache stays coherent. |
| Store.ClinicStore.ExpireCacheEntry | src/backend/ClinicPos.Api/Controllers/PatientsController.cs:102-105 | An expired entry disappears. The store stays valid and coherence is kept. |
| Store.ClinicStore.ListBranches | src/backend/ClinicPos.Api/Controllers/BranchesController.cs:21-35 | The answer matches the branch pipeline. |
| Store.ClinicStore.ListTenants | src/backend/ClinicPos.Api/Controllers/AuthController.cs:28-37 | The answer matches the tenant listing. It has one entry per tenant, in code order. |
| Store.ClinicStore.Register | src/backend/ClinicPos.Api/Controllers/AuthController.cs:39-73 | The answer and the new tables match the registration pipeline. Patients and the cache are untouched, and the store stays valid. |
| Store.ClinicStore.Login | src/backend/ClinicPos.Api/Controllers/AuthController.cs:75-105 | The answer matches the login pipeline. |
| Store.ClinicStore.CreateUser | src/backend/ClinicPos.Api/Controllers/AuthController.cs:108-156 | The answer and the new tables match the user-creation pipeline, and the store stays valid. |
| Store.ClinicStore.AssignRole | src/backend/ClinicPos.Api/Controllers/AuthController.cs:159-175 | The answer and the new tables match the role-change pipeline, and the store stays valid. |
| Store.ClinicStore.AddBranches | src/backend/ClinicPos.Api/Controllers/AuthController.cs:178-221 | The answer and the new tables match the branch-assignment pipeline, and the store stays valid. |
| Store.ClinicStore.AssignTenant | src/backend/ClinicPos.Api/Controllers/AuthController.cs:224-251 | The answer and the new tables match the tenant-reassignment pipeline, including a failed second save. The store stays valid. |

## Left out

- Accounts.LinkedBranches: the order of the branches a login or user response lists follows the link table; the SQL join leaves that order unspecified, so only the set of branch ids is a promise of the source (Accounts.LoginBranches).

- Guids.TryParse: accepts only the 36-character hyphenated ("D") form. The
  framework's parser also accepts braces, parentheses, the 32-digit form and
  surrounding white space. The tokens this API issues only ever carry the D form.
- Text.ToUpper: upper-cases ASCII letters only. The framework's
  culture-sensitive upper-casing of other letters is not modelled.
- Text.OrdinalLe: `OrderBy` on names and codes is modelled as ordinal order on
  code points. The database collation may order differently. The relative
  order of equal keys, which SQL leaves open, is fixed by the model's
  insertion sort.
- Lengths (column limits, DTO limits) are counted in code points, not UTF-16
  code units.
- Password hashing (PBKDF2 with SHA-256, 100 000 iterations and a random
  salt) and token signing and validation are abstracted.
  The digest is a parameter, verification is a function parameter, and a
  token is its claims plus a validity bit. Issuer, audience, key and lifetime
  checks are all folded into that bit.
- The clock, `Guid.NewGuid` and the database's own identifier generation are
  parameters (`now`, `newId(k)`, `jti`).
- Seeding.SeedPatients: each seed row is stamped when it is built, and the
  model gives the k-th row built the time `now + k`. The framework clock can
  read the same tick twice in a row; the model assumes successive reads differ.
- Cache JSON serialisation and the 5-minute time-to-live: cache entries hold
  the response list itself. Expiry is the explicit `ExpireCacheEntry`
  operation, with no clock.
- The database error text matching in the patient controller is modelled as
  "the unique index was violated". Other save failures, which the controller
  would let escape as 500, are modelled as a `ServerError` (500) response.
- Accounts.AssignTenant: does not roll back the first save when the second
  fails. The move stays and the answer is a server error, as in the
  controller.
- Accounts.Register: does not check that the given branch belongs to the
  chosen tenant, because the controller does not. A registrant can be linked
  to another tenant's branch, so `LinksWithinTenant` is not part of the
  store invariant.
- Store.ClinicStore.Seed: does not promise cache coherence. Start-up seeding
  does not evict the cache, and a cache that outlives the process can be
  stale.
- `CreateUserRequest`, `AddBranchesRequest`, `BranchInfo` and the
  `FullName`/`Branches` fields of the login response are used by the
  controller but are missing from the DTO file. Their shapes follow the
  controller, and they declare no validation.
- `EnsureCreated` and `Migrate`: schema creation at start-up is not modelled.
  The store starts empty.
- Session.SessionStore.SetSession and Session.SessionStore.ClearSession:
  require a browser (`inBrowser`). Only `getSession` checks for a browser;
  the other two would fail on the missing storage object.
- Concurrency (two requests racing for the same username or phone number),
  the message queue, health checks, CORS, logging, OpenAPI and the React UI
  components are outside the model.
