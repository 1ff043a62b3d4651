/** What `CommandDialog` hands back when the user presses Save. */
module Dialog {
  import opened Text

  /** The three fields of the add/edit dialog. */
  datatype Entry = Entry(tags: string, desc: string, cmd: string)

  /** `CommandDialog.values`: every field with the white space around it removed. */
  function Values(raw: Entry): (v: Entry)
    ensures Trimmed(v.tags) && Trimmed(v.desc) && Trimmed(v.cmd)
    ensures StripsTo(raw.tags, v.tags) && StripsTo(raw.desc, v.desc) && StripsTo(raw.cmd, v.cmd)
    ensures v.cmd == [] <==> AllSpace(raw.cmd)
  {
    StripEmptyIff(raw.cmd);
    Entry(Strip(raw.tags), Strip(raw.desc), Strip(raw.cmd))
  }

  /** `values` applied to its own output returns it unchanged: stripping is idempotent on
      every field. */
  lemma {:induction false} ValuesIdempotent(raw: Entry)
    ensures Values(Values(raw)) == Values(raw)
  {
    StripIdempotent(raw.tags);
    StripIdempotent(raw.desc);
    StripIdempotent(raw.cmd);
  }
}
