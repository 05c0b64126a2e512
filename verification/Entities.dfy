/** The read-only surface of the persisted entities that the activity choice
    field looks at. Only the fields the form type reads are kept. */
module Entities {
  import opened Wrappers

  /** A customer; only its currency code is read. */
  datatype Customer = Customer(currency: string)

  /** A project, owned by a customer. */
  datatype Project = Project(id: int, name: string, customer: Customer)

  /** An activity: a name, an optional comment and an optional project
      (an activity without project is a global activity). */
  datatype Activity = Activity(name: string, comment: Option<string>, project: Option<Project>)
}
