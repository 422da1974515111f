/**
 * The rows of the five tables. Timestamps are ticks of the server clock;
 * `Guid.NewGuid()` and `DateTime.UtcNow` defaults are supplied by the caller.
 */
module Entities {
  import opened Wrappers
  import opened Guids
  import Roles

  datatype Tenant = Tenant(id: Guid, code: string, name: string, createdAt: nat)

  datatype Branch = Branch(
    id: Guid, tenantId: Guid, name: string,
    address: Option<string>, phoneNumber: Option<string>, createdAt: nat)

  datatype User = User(
    id: Guid, username: string, passwordHash: string, fullName: string,
    role: Roles.Role, tenantId: Guid, createdAt: nat)

  datatype UserBranch = UserBranch(id: Guid, userId: Guid, branchId: Guid)

  datatype Patient = Patient(
    id: Guid, tenantId: Guid, firstName: string, lastName: string,
    phoneNumber: string, createdAt: nat, primaryBranchId: Option<Guid>)
}
