/** The role names of src/models/Role.entity.ts. */
module RoleEntity {
  datatype RoleType = Admin | Vendor | Customer
}
