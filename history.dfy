/**
 * The per-user history files: one record per user id holding that user's
 * whole transcript. Loading fails safe to the persona seed; saving overwrites
 * the whole record.
 */
module History {

  /** The Telegram user id a record is filed under. */
  type UserId = int

  datatype Role = System | User | Assistant

  /** One entry of a transcript, as sent to the chat-completion API. */
  datatype Message = Message(role: Role, content: string)

  /** A user's conversation, oldest message first. */
  type Transcript = seq<Message>

  /**
   * What a history file holds: a transcript that reads back, or contents
   * that cannot be read or do not parse.
   */
  datatype Record = Stored(transcript: Transcript) | Unreadable

  /** The history directory: at most one record per user id. */
  type Files = map<UserId, Record>

  /** The text of the persona prompt; its wording is not part of this model. */
  const PersonaText: string

  /** The system message every new or recovered transcript starts from. */
  const Seed: Message := Message(System, PersonaText)

  /**
   * `loadUserHistory`: the stored transcript when the record exists and reads
   * back; a fresh transcript holding only the seed when it is missing or
   * unreadable. Loading never changes the files.
   */
  function Load(files: Files, user: UserId): (t: Transcript)
    ensures user in files && files[user].Stored? ==> t == files[user].transcript
    ensures (user !in files || files[user].Unreadable?) ==> t == [Seed]
  {
    if user in files then
      match files[user]
      case Stored(transcript) => transcript
      case Unreadable => [Seed]
    else [Seed]
  }

  /**
   * `saveUserHistory`: the user's record is replaced by the whole transcript;
   * a load right after returns exactly that transcript, and every other
   * user's record is left as it was.
   */
  function Save(files: Files, user: UserId, t: Transcript): (saved: Files)
    ensures Load(saved, user) == t
    ensures saved.Keys == files.Keys + {user}
    ensures forall u :: u in files && u != user ==> saved[u] == files[u]
  {
    files[user := Stored(t)]
  }

  /** Saving one user's transcript does not change what another user loads. */
  lemma LoadAfterOtherSave(files: Files, user: UserId, other: UserId, t: Transcript)
    requires user != other
    ensures Load(Save(files, other, t), user) == Load(files, user)
  {
  }

  /** The last save for a user wins: nothing of an earlier save survives it. */
  lemma SaveOverwrites(files: Files, user: UserId, t1: Transcript, t2: Transcript)
    ensures Save(Save(files, user, t1), user, t2) == Save(files, user, t2)
  {
  }

  /**
   * Every stored transcript starts from the persona seed: the transcript
   * every conversation starts with, and restarts with after a lost record.
   */
  predicate Seeded(files: Files)
  {
    forall u :: u in files && files[u].Stored? ==>
      |files[u].transcript| > 0 && files[u].transcript[0] == Seed
  }

  /** While every stored transcript starts from the seed, so does every load. */
  lemma LoadSeeded(files: Files, user: UserId)
    requires Seeded(files)
    ensures |Load(files, user)| > 0 && Load(files, user)[0] == Seed
  {
  }

  /** Saving a transcript that starts from the seed keeps every record seeded. */
  lemma SaveSeeded(files: Files, user: UserId, t: Transcript)
    requires Seeded(files)
    requires |t| > 0 && t[0] == Seed
    ensures Seeded(Save(files, user, t))
  {
  }
}
