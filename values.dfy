/** The fixed texts the generator writes and compares against. The refactored
    helpers take them from an object of constants, the two scripts declare
    their own copies; the values are the same. */
module Values {

  /** The line above which each new release is inserted:
      "_---> Here is the next release entry point <---_", written in pieces
      so that proofs about its characters can go piece by piece. */
  const EntryPoint: string := "_---> " + "Here is " + "the next " + "release entry" + " point <---_"

  /** The version assumed when no previous release can be found. */
  const DefaultVersion: string := "0.0.0"

  /** The description of the bucket of commits that match no configured type. */
  const NotRecognizedDescription: string := "not recognized commit type"

  /** The key under which that bucket is stored. */
  const UntypedKey: string := "untyped"

  /** The head of a freshly created changelog. */
  const DefaultChangelogContent: string := "# Changelog\n\nEach commit has to be one of the following [`type`]:\n\n"
}
