/**
 * An RMS command: a capability string such as "create user", identified in
 * storage by its SHA-1 digest.
 */
module Commands {
  import opened Digests
  import opened Storage

  /** A command's text and digest; both are fixed when it is built. */
  datatype Command = Command(text: string, hash: Hash)

  /** `new Command($text)`. */
  function New(text: string): (c: Command)
    ensures Valid(c) && c.text == text
  {
    Command(text, Sha1(text))
  }

  /** The digest belongs to the text, as every constructed command has it. */
  predicate Valid(c: Command) {
    c.hash == Sha1(c.text)
  }

  /** Two commands built from strings are equal exactly when their digests are. */
  lemma SameHashSameText(a: string, b: string)
    ensures New(a).hash == New(b).hash <==> a == b
    ensures New(a).hash == New(b).hash <==> New(a) == New(b)
  {
    Sha1Injective(a, b);
  }

  /**
   * `create()`: `INSERT IGNORE INTO rmsCommands (hash, command)`. Adds the
   * command under its digest when no row has that digest yet.
   */
  function Create(db: Store, c: Command): (db': Store)
    ensures db'.commands.Keys == db.commands.Keys + {c.hash}
    ensures forall h :: h in db.commands ==> db'.commands[h] == db.commands[h]
    ensures c.hash !in db.commands ==> db'.commands[c.hash] == c.text
    ensures db'.users == db.users && db'.rights == db.rights && db'.meta == db.meta
  {
    if c.hash in db.commands then db else db.(commands := db.commands[c.hash := c.text])
  }

  /** Creating the same command twice is creating it once. */
  lemma CreateIdempotent(db: Store, c: Command)
    ensures Create(Create(db, c), c) == Create(db, c)
  {
  }

  /** `__toString()`. */
  function ToString(c: Command): string {
    c.text
  }

  /** `jsonSerialize()`. */
  function JsonSerialize(c: Command): string {
    c.text
  }

  /** Both string forms give back the text the command was built from. */
  lemma StringFormsRoundTrip(c: Command)
    requires Valid(c)
    ensures New(ToString(c)) == c
    ensures New(JsonSerialize(c)) == c
  {
  }

  /** The command dictionary maps every digest to the text it digests. */
  predicate CommandsConsistent(db: Store) {
    forall h :: h in db.commands ==> Sha1(db.commands[h]) == h
  }

  /** Creating a constructed command keeps the dictionary consistent. */
  lemma CreateKeepsConsistent(db: Store, text: string)
    requires CommandsConsistent(db)
    ensures CommandsConsistent(Create(db, New(text)))
  {
  }
}
