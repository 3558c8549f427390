/** The plain records of the contact book: a contact, the node that stores it
    in a bucket chain, and the optional result of a lookup. */
module Contacts {

  /** A contact: its name (which is also its key in the table) and its phone number. */
  datatype Contact = Contact(name: string, number: string)

  /** One entry of a bucket chain: the key and the contact stored under it.
      The successor link of a linked chain is represented by the node's
      position in a sequence, so a node carries no link of its own. */
  datatype Node = Node(key: string, value: Contact)

  /** The result of a lookup: the contact found, or an explicit absence. */
  datatype Option<+T> = None | Some(value: T)
}
