/** The error kinds the directory core can return. Go builds these as
    formatted strings; the model keeps the kind and the name it mentions. */
module Errors {

  datatype Error =
    | DuplicateName(name: string)  // AddContact: a name equal ignoring case is stored
    | NotFound(name: string)       // DeleteContact, EditContact, SearchContact: no match
    | ReadFailed                   // Load: the backing store exists but cannot be read
    | DecodeFailed                 // Load: the backing store holds malformed data
    | WriteFailed                  // Save: the backing store cannot be written
    | LoadFailed(cause: Error)     // NewDirectory: wraps the error Load returned
}
