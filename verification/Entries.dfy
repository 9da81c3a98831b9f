/** Entries of corpora, as iterators yield them. */
module Entries {
  datatype Entry = Entry(name: string, contents: string)
}
