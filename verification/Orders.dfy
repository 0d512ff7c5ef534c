/** States of deposit and withdrawal orders. */
module Orders {
  datatype Status = Pending | Completed | Failed | Expired

  datatype Environment = Sandbox | Production
}
