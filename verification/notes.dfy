/** The notes store of src/components/ProblemList.tsx: free text per problem
    title, kept apart from the progress list. */
module Notes {
  import opened Types

  /** Notes keyed by problem title. Keys need not belong to a current problem. */
  type NoteMap = map<string, string>

  /** The notes after mounting: the stored mapping, or no notes at all. */
  function InitialNotes(stored: Option<NoteMap>): (r: NoteMap)
    ensures stored.Some? ==> r == stored.value
    ensures stored.None? ==> r.Keys == {}
  {
    match stored
    case Some(m) => m
    case None => map[]
  }

  /** `updateNotes(title, text)`: inserts or overwrites the note of `title`. */
  function UpdateNotes(notes: NoteMap, title: string, text: string): (r: NoteMap)
    ensures title in r && r[title] == text
    ensures forall k :: k in notes && k != title ==> k in r && r[k] == notes[k]
    ensures r.Keys == notes.Keys + {title}
  {
    notes[title := text]
  }

  /** The text area's value, `notes[title] || ""`: a missing note reads as empty. */
  function NoteText(notes: NoteMap, title: string): (r: string)
    ensures title in notes ==> r == notes[title]
    ensures r == "" <==> title !in notes || notes[title] == ""
  {
    if title in notes then notes[title] else ""
  }

  /** After an update the text area of that title shows the new text, and
      every other title shows what it showed before. */
  lemma UpdateThenRead(notes: NoteMap, title: string, text: string, other: string)
    requires other != title
    ensures NoteText(UpdateNotes(notes, title, text), title) == text
    ensures NoteText(UpdateNotes(notes, title, text), other) == NoteText(notes, other)
  {
  }

  /** The later of two updates of one title wins. */
  lemma LastUpdateWins(notes: NoteMap, title: string, first: string, second: string)
    ensures UpdateNotes(UpdateNotes(notes, title, first), title, second)
         == UpdateNotes(notes, title, second)
  {
  }

  /** Clearing a note keeps its key, yet it reads the same as a missing note. */
  lemma EmptyNoteReadsAsMissing(notes: NoteMap, title: string)
    ensures title in UpdateNotes(notes, title, "")
    ensures NoteText(UpdateNotes(notes, title, ""), title) == NoteText(notes - {title}, title)
  {
  }

  /** After mounting, each text area shows the stored note of its title, and
      is blank when no notes were stored or the title has none. */
  lemma MountedNotesRead(stored: Option<NoteMap>, title: string)
    ensures stored.None? ==> NoteText(InitialNotes(stored), title) == ""
    ensures stored.Some? && title in stored.value ==>
      NoteText(InitialNotes(stored), title) == stored.value[title]
    ensures stored.Some? && title !in stored.value ==> NoteText(InitialNotes(stored), title) == ""
  {
  }
}
