/** The roles a node may have for OpenStack. */
module NodeRoles {

  datatype Role = Compute | Gateway | Controller
}
