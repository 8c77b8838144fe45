/**
 The `User` record of the service: a mutable object whose five properties all
 have public setters. The handlers of the store assign `id` after construction
 (on create) and overwrite the four text fields in place (on update).
 */
module Models {

  /** An immutable snapshot of the field values of one `User` object. */
  datatype UserData = UserData(id: int, firstName: string, lastName: string, email: string, department: string)

  class User {
    var id: int
    var firstName: string
    var lastName: string
    var email: string
    var department: string

    /** The values the fields hold right now. */
    function Data(): UserData
      reads this
    {
      UserData(id, firstName, lastName, email, department)
    }

    /**
     The three `required` names must be supplied, but any string is accepted,
     the empty one included; `department` falls back to the empty string and
     `id` starts at 0 until the store assigns one.
     */
    constructor (firstName: string, lastName: string, email: string, department: string := "")
      ensures Data() == UserData(0, firstName, lastName, email, department)
    {
      this.id := 0;
      this.firstName := firstName;
      this.lastName := lastName;
      this.email := email;
      this.department := department;
    }
  }
}
