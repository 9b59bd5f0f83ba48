/** The contact record of internal/domain/contact.go. */
module Domain {

  /** A plain value: two contacts are equal exactly when both fields are. */
  datatype Contact = Contact(name: string, phone: string)

  /** Builds a contact from the given strings as they are: no trimming and
      no validation happens here (that is the directory's job). */
  function NewContact(name: string, phone: string): (c: Contact)
    ensures c.name == name
    ensures c.phone == phone
  {
    Contact(name, phone)
  }

  /** Contacts compare field by field, which is the equality the storage
      round trip relies on. */
  lemma NewContactEquality(n1: string, p1: string, n2: string, p2: string)
    ensures NewContact(n1, p1) == NewContact(n2, p2) <==> n1 == n2 && p1 == p2
  {
  }
}
