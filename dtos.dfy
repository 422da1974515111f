/**
 * Request and response records of `Application/PatientDtos.cs` and
 * `Application/AuthDtos.cs`, with the checks their data annotations declare.
 * The response shapes follow what the controllers assign (full name and the
 * branch list included); the records that the controllers use but that
 * neither of these files declares take the fields the controllers read.
 */
module Dtos {
  import opened Wrappers
  import opened Guids
  import opened Tenancy
  import opened Entities
  import Text

  /** `[Required]` on a string: not null, not empty and not only white space. */
  predicate Required(s: string) {
    !Text.IsBlank(s)
  }

  // ----- Patients -----

  datatype CreatePatientRequest = CreatePatientRequest(
    firstName: string, lastName: string, phoneNumber: string, primaryBranchId: Option<Guid>)

  predicate ValidCreatePatient(r: CreatePatientRequest) {
    && Required(r.firstName) && |r.firstName| <= 200
    && Required(r.lastName) && |r.lastName| <= 200
    && Required(r.phoneNumber) && |r.phoneNumber| <= 50
  }

  datatype PatientResponse = PatientResponse(
    id: Guid, tenantId: Guid, firstName: string, lastName: string,
    phoneNumber: string, createdAt: nat, primaryBranchId: Option<Guid>)

  // ----- Accounts -----

  datatype RegisterRequest = RegisterRequest(
    username: string, password: string, tenantCode: string, branchId: Option<Guid>)

  predicate ValidRegister(r: RegisterRequest) {
    && Required(r.username) && |r.username| <= 100
    && Required(r.password) && |r.password| >= 4
    && Required(r.tenantCode)
  }

  datatype LoginRequest = LoginRequest(username: string, password: string, tenantCode: string)

  predicate ValidLogin(r: LoginRequest) {
    Required(r.username) && Required(r.password) && Required(r.tenantCode)
  }

  /** Declares no validation of its own; the controller checks the role and the branches. */
  datatype CreateUserRequest = CreateUserRequest(
    username: string, password: string, fullName: string, role: string, branchIds: seq<Guid>)

  datatype AddBranchesRequest = AddBranchesRequest(branchIds: seq<Guid>)

  datatype AssignRoleRequest = AssignRoleRequest(role: string)

  predicate ValidAssignRole(r: AssignRoleRequest) {
    Required(r.role)
  }

  /** `[Required]` on the non-nullable tenant id never fails: an absent id binds to `Guid.Empty`. */
  datatype AssignTenantRequest = AssignTenantRequest(tenantId: Guid, branchId: Option<Guid>)

  datatype TenantResponse = TenantResponse(id: Guid, code: string, name: string)

  datatype BranchInfo = BranchInfo(id: Guid, name: string)

  /** `new BranchInfo { Id = b.Id, Name = b.Name }`. */
  function Info(b: Branch): BranchInfo {
    BranchInfo(b.id, b.name)
  }

  datatype UserResponse = UserResponse(
    id: Guid, username: string, fullName: string, role: string,
    tenantId: Guid, branches: seq<BranchInfo>, createdAt: nat)

  /** The token is represented by the claims it carries. */
  datatype LoginResponse = LoginResponse(
    token: Principal, username: string, fullName: string, role: string,
    tenantId: Guid, tenantCode: string, tenantName: string, branches: seq<BranchInfo>)
}
