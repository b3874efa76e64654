# Inline video buttons for a chat transcript, in Dafny

This project models `src/videoframes.c` of the Pidgin embedded-video plugin. That
file keeps a hash table from toggle-button widgets to their information: a text
mark, the website whose pattern matched, the URL text, and whether the button was
inserted at the end of the text.

- A new button goes into the conversation's text buffer as a child anchor.
- Toggling a button on inserts a web view below it: a newline, the web view's
  anchor and, unless the button is at the end of the text, another newline.
- Toggling it off deletes those two or three positions again.
- Removing a button collapses it first, then deletes its anchor and its entry.
- The web view loads a temporary HTML page. `videoframes_generate_page` builds it
  from the website's embed markup with every `%VIDEO_ID%` replaced by the video id,
  and returns a `file:///` URI for it.

The model has four modules.

- `TextBuffer` is the part of a GTK text buffer that this code drives. The
  `Buffer` class has a sequence of content positions (characters and child
  anchors) and a map of left-gravity marks. It has mark creation and deletion,
  `get_iter_at_mark`, text and child-anchor insertion, deletion, and
  `forward_chars`. Marks move as GTK moves them: a mark sitting exactly at an
  insertion point stays to its left, and a mark inside a deleted range goes to the
  range's start.
- `Layout` describes where buttons sit. Each registered button owns a block: its
  anchor, followed by the expansion while it is active. `LaidOut` is the invariant
  between blocks and buffer:
  - every block is present;
  - blocks are at least one position apart;
  - every button anchor in the buffer is the anchor of its own block.
  
  Lemmas show that insertion, expansion, collapse and removal each keep it.
- `Page` is the string part of `videoframes_generate_page`: literal replacement,
  the file content with its fixed write lengths, and the URI buffer.
- `VideoFrames` holds `button_info_new` and `button_info_free`, and the `Registry`
  class. The registry is the hash table together with the toggle state of each
  button widget and the transcript. Its methods are init, destroy, insert, remove,
  the toggle callback and toggle, each proved against the buffer edits it makes.
  `Registry.Valid` says that the registry and the buffer agree: every entry has a
  widget and a live mark, the modelled marks are exactly the entries' marks, and
  the blocks are laid out. The buffer's other marks are not modelled (see
  "Left out").

Signals are modelled as direct calls. `Toggle` flips the state and calls
`ToggledCallback` itself, as GTK emits "toggled" synchronously.

The returned URI is the literal `file:///` followed by the temporary file's name.
That name is an absolute path, so the URI has four slashes (`file:////tmp/…`), one
more than a conventional file URI. The model keeps the code's literal.

## Model

| member | source | states |
|---|---|---|
| TextBuffer.Buffer.CreateMark | src/videoframes.c:30-31 | a fresh mark, absent before, is added at the given position; the content is unchanged |
| TextBuffer.Buffer.DeleteMark | src/videoframes.c:42 | exactly that mark is dropped; the content is unchanged |
| TextBuffer.Buffer.IterAtMark | src/videoframes.c:112 | the iterator at a mark is a position inside the buffer |
| TextBuffer.Buffer.Insert | src/videoframes.c:153 | the text is spliced in at the iterator, marks move with left gravity, and the iterator comes back after the new text |
| TextBuffer.Buffer.InsertChildAnchor | src/videoframes.c:92-94 | one anchor holding the widget is spliced in, and marks move with left gravity |
| TextBuffer.Buffer.Delete | src/videoframes.c:115 | the range is cut out, and marks after it move back while marks inside it go to its start |
| TextBuffer.ForwardChars | src/videoframes.c:114 | the iterator moves the full count exactly when that stays inside the buffer and otherwise stops at the end; it never moves back or leaves the buffer (also lines 128, 169-171) |
| TextBuffer.MarksInsertThenDelete | src/videoframes.c:153-158 | deleting what was just inserted puts every mark back where it was |
| TextBuffer.MarksDeleteThenInsert | src/videoframes.c:167-172 | re-inserting a deleted range puts every mark back, when no mark lay inside it or at its end |
| TextBuffer.InsertShiftsCompose | src/videoframes.c:153-158 | two consecutive insertions move marks as one insertion of both |
| TextBuffer.DeleteShiftsCompose | src/videoframes.c:104-115 | deleting a range and then the position before it moves marks as one deletion |
| TextBuffer.SpliceThenCut | src/videoframes.c:153-172 | cutting out what was spliced in gives the content back |
| TextBuffer.CutThenSplice | src/videoframes.c:153-172 | splicing back what was cut out gives the content back |
| Layout.Expansion | src/videoframes.c:153-158 | the expansion is two positions at the end of the text and three otherwise, the second being the web view's anchor, and it holds no button anchor |
| Layout.ExpansionInserted | src/videoframes.c:153-158 | the newline, the web-view anchor and, when not at the end, the second newline, inserted in turn, put the whole expansion after the anchor |
| Layout.ExpansionShifts | src/videoframes.c:153-158 | those two or three insertions move marks as one insertion of the expansion |
| Layout.InsertKeepsLayout | src/videoframes.c:88-94 | a new collapsed button at a free position keeps every block in place, the blocks apart and every button anchor owned |
| Layout.ExpandKeepsLayout | src/videoframes.c:153-158 | inserting the expansion after a collapsed button's anchor keeps the layout, with that block now expanded |
| Layout.CollapseKeepsLayout | src/videoframes.c:167-172 | deleting an expanded button's expansion keeps the layout, with that block now collapsed |
| Layout.RemoveKeepsLayout | src/videoframes.c:111-118 | deleting a collapsed button's anchor and dropping its block keeps the layout |
| Layout.EmptyLayout | src/videoframes.c:47-52 | a transcript without button anchors is laid out for an empty registry |
| VideoFrames.ButtonInfoNew | src/videoframes.c:23-37 | the entry has a fresh left-gravity mark at the location, the website, the end flag, and as URL the first `len` characters of the text or, for a negative `len`, the text up to its first NUL (as g_string_new_len copies); the content is unchanged |
| VideoFrames.ButtonInfoFree | src/videoframes.c:39-45 | the entry's mark, and only it, is deleted |
| VideoFrames.FreeEntries | src/videoframes.c:54-58 | destroying the table frees every entry, and the buffer is left with no marks and unchanged content |
| VideoFrames.PlaceButton | src/videoframes.c:88-94 | the entry's mark is at the location, the end flag says whether the location was the end of the text, and one button anchor is spliced in there |
| VideoFrames.UnplaceButton | src/videoframes.c:111-118 | the one position at the entry's mark is deleted and the mark goes with the entry |
| VideoFrames.InsertExpansion | src/videoframes.c:153-158 | the expansion (two positions at the end of the text, three otherwise) is spliced in at the iterator and marks move with left gravity |
| VideoFrames.DeleteExpansion | src/videoframes.c:167-172 | two positions at the end of the text, or three otherwise, are cut from the iterator on |
| VideoFrames.CollapseExpansion | src/videoframes.c:125-128 | the expansion right after the entry's mark, one position forward, is cut |
| VideoFrames.Registry.Init | src/videoframes.c:47-52 | the table exists and is empty, and the registry is valid |
| VideoFrames.Registry.Destroy | src/videoframes.c:54-58 | the table is gone, and every mark it held is released with the content unchanged |
| VideoFrames.Registry.InsertNewButton | src/videoframes.c:60-97 | a fresh, inactive widget is registered with its URL (the first `len` characters, or up to the first NUL for a negative `len`) and end flag, one anchor is spliced in at the location, its mark is there, the blocks shift and gain the new one, and the registry stays valid |
| VideoFrames.Registry.ExpandButton | src/videoframes.c:136-158 | the expansion is spliced in right after the anchor, the button's block becomes expanded, and the registry is valid again |
| VideoFrames.Registry.CollapseButton | src/videoframes.c:160-173 | the expansion right after the anchor is cut, the button's block becomes collapsed, and the registry is valid again |
| VideoFrames.Registry.ToggledCallback | src/videoframes.c:121-175 | a page is made exactly when the button became active: its file holds the header, the button's embed markup with the video id in place of each placeholder, and the footer, and its URI is `file:///` followed by the temporary name; the expansion is then inserted, and otherwise deleted; either way the registry is valid |
| VideoFrames.Registry.Toggle | src/videoframes.c:187-193 | the toggle state flips and the callback's edits follow: when it was off, the button's page is made and the expansion inserted, and when it was on, the expansion is deleted; the table is unchanged |
| VideoFrames.Registry.RemoveButton | src/videoframes.c:99-119 | an active button is collapsed first, then its anchor is deleted, so its whole block is cut; its entry, widget state and mark are dropped, and the registry stays valid |
| VideoFrames.InsertStep | src/videoframes.c:60-97 | after an insertion the registry with the new entry is consistent and its blocks are the old ones shifted, plus the new collapsed block |
| VideoFrames.ExpandStep | src/videoframes.c:153-158 | after an expansion the registry, with the button active, is consistent; the blocks after the anchor move right by the expansion's length, and that block becomes expanded |
| VideoFrames.CollapseStep | src/videoframes.c:167-172 | after a collapse the registry, with the button inactive, is consistent; the blocks after the expansion move back by its length, and that block becomes collapsed |
| VideoFrames.RemoveBlockStep | src/videoframes.c:99-119 | collapsing when active and then deleting the anchor cuts exactly the button's block, and the registry without the entry is consistent |
| VideoFrames.CollapseUndoesExpand | src/videoframes.c:187-193 | toggling a collapsed button on and then off gives back the transcript and every button mark |
| VideoFrames.ExpandUndoesCollapse | src/videoframes.c:187-193 | toggling an expanded button off and then on gives back the transcript and every button mark |
| VideoFrames.AdjacentButtonLosesMark | src/videoframes.c:30-31 | a button inserted right at the end of another's block is not at a free position; expanding the first one leaves the second one's mark on the inserted newline, and the registry is no longer consistent (also lines 92-93, 153) |
| VideoFrames.StrayMarkBreaksLayout | src/videoframes.c:125-128 | a registered button whose anchor is not where its mark says breaks consistency |
| VideoFrames.RemoveUndoesInsert | src/videoframes.c:60-119 | removing a button right after inserting it gives back the transcript and every other mark |
| VideoFrames.MarksDistinct | src/videoframes.c:30-31 | when the blocks are apart, no two entries share a mark |
| Page.Strlen | src/videoframes.c:214 | the length is the position of the first NUL, or the whole buffer when there is none |
| Page.WriteLengthsMatch | src/videoframes.c:213-215 | the write lengths 28 and 16 are exactly the lengths of the header and the footer |
| Page.ReplaceLiteral | src/videoframes.c:204-209 | the result only holds characters of the text and of the replacement; its meaning is stated by `ReplaceIsJoin`, `PiecesAvoidPattern` and `PiecesRejoin` |
| Page.ReplaceIsJoin | src/videoframes.c:204-209 | replacement equals cutting the text at its leftmost non-overlapping placeholders and joining the pieces with the video id |
| Page.PiecesRejoin | src/videoframes.c:204-209 | the pieces joined with the placeholder give the text back |
| Page.PiecesAvoidPattern | src/videoframes.c:204-209 | no piece contains the placeholder, so every occurrence was replaced |
| Page.ReplaceWithItself | src/videoframes.c:204-209 | replacing the placeholder by itself changes nothing |
| Page.ReplaceWithoutOccurrence | src/videoframes.c:204-209 | text without the placeholder is left as it is |
| Page.UriBuffer | src/videoframes.c:227-228 | the buffer has strlen(filename) + 9 characters, and its C string is `file:///` followed by the file name and fills all but the terminator |
| Page.GeneratePage | src/videoframes.c:195-232 | the file holds the header, the embed with the placeholders replaced and the footer, and the URI is `file:///` followed by the temporary name, eight characters longer than it |
| Page.PageEmbedsVideo | src/videoframes.c:204-216 | the page body is the embed markup cut at every placeholder, with the video id between the pieces; the pieces hold no placeholder and rejoin to the markup |

## Left out

- Widget construction, the button's image, its style string, and `gtk_widget_show_all` (lines 64-85, 130-133, 139, 150, 163). They do not touch the registry or the buffer.
- Signal connection and dispatch: the "toggled" handler is called directly by `Toggle`.
- The web view: its creation and its asynchronous loading of the URI (lines 142-146) are kept only as the returned page and its URI.
- The new-window policy callback and `purple_notify_uri` (lines 177-185), because they are external services.
- GRegex matching of the website's pattern (lines 198-203). The `video_id` group is an input, and the `g_assert` on a match becomes the requirement that it is present.
- `g_file_open_tmp`, `write` and `close` (lines 211-216). The temporary name is an input, and the written bytes are the page content. The temporary files are never removed by the source either.
- Debug logging (lines 218-219) and memory freeing other than marks (lines 43-44, 146, 221-225, 229).
- VideoFrames.ButtonInfoNew, VideoFrames.PlaceButton and VideoFrames.Registry.InsertNewButton: one model `char` stands for one byte of the C string, so `len` counts characters where the source counts bytes of UTF-8 text.
- C strings are NUL-free sequences. The replaced embed and the file name are assumed free of NUL bytes, which no C string holds before its terminator.
- The buffer's other marks: GTK's "insert" and "selection_bound" marks and the marks of the text view and of GtkIMHtml. The model's buffer holds only the buttons' marks. So `CollapseUndoesExpand` and `ExpandUndoesCollapse` promise to restore the button marks only. A foreign mark strictly inside an expansion, or a right-gravity mark at its start, is not restored by a collapse and a re-expansion.
- One conversation buffer only. The source reaches the buffer through each entry's `imhtml`, and edits that other code makes to the buffer are not modelled.
- `videoframes_remove_button` on a widget absent from the table dereferences a null entry in the source; the model requires the button to be registered.
- VideoFrames.Registry.InsertNewButton: requires the location to be strictly before every block or at least one position past its end (`FreeAt`). The source does not check this. A left-gravity mark at an insertion point stays to the left of the new text, so an insertion right against another button's block would separate that button from its mark (see "Findings").
- VideoFrames.Registry.ToggledCallback: requires the registry to be consistent for the state before the toggle, which holds whenever it is reached through `Toggle`.
- VideoFrames.Registry.RemoveButton: states the new buffer content, marks, table and flags but not the blocks map after removal. The blocks are a function of those (`BlocksOf`), and `RemoveBlockStep` proves the registry consistent.

## Findings

| source | as written | input that shows it | evidently intended | confidence | as-written member | corrected member |
|---|---|---|---|---|---|---|
| src/videoframes.c:30-31, 92-93, 153 | insert_new_button puts a left-gravity mark at any location, even right at the end of another button's block; expanding that earlier button inserts at the later button's mark, which stays put | empty transcript; button `a` inserted at 0, button `b` at 1; toggling `a` on leaves `b`'s mark at 1, on the inserted newline, while `b`'s anchor is at 3 | every button's mark stays on its own anchor, which holds when new buttons keep a position between blocks | not executed; medium (needs two buttons inserted at one text position, such as one URL matched by two websites, or a caller reusing the iterator that create_child_anchor moved past the first anchor; two separate links always have the second link's text between their buttons) | VideoFrames.AdjacentButtonLosesMark | VideoFrames.Registry.InsertNewButton |
