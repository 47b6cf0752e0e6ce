/**
  The `TitleMixin` of pmtk/util.py: a title that falls back to the id while
  none is set, and a description that defaults to the empty string.
 */
module Util {
  import opened Wrappers

  /** The class attribute `description`. */
  const DefaultDescription := ""

  /** The `title` getter: the stored title, or the id when it is `None`. */
  function Title(stored: Option<string>, id: string): (t: string)
    ensures stored.Some? ==> t == stored.value
    ensures stored.None? ==> t == id
  {
    if stored.Some? then stored.value else id
  }
}
