# Section completer for Xcode project files

The `xcode-ern` package ships a pre-pass, `lib/pbxProjectFileUtils.js`, that
runs on an Xcode `project.pbxproj` file before the package's own parser
reads it. The parser creates a section object only when the file already has
that section. So the pre-pass makes sure that fourteen named sections are
present, from `PBXBuildFile` to `XCConfigurationList`:

- `getMissingSections` lists the catalog entries whose begin-marker comment
  `/* Begin <name> section */` does not occur in the file.
- `addMissingSectionsToPbxProj` takes the missing entries in catalog order.
  For each one it splices an empty section (a begin line and an end line)
  into the text, right after an anchor. For the first catalog entry the
  anchor is the opening of the object table, `objects = {` followed by a
  blank line. For every other entry it is the end line of the preceding
  catalog entry, followed by a blank line.

This project models both operations on the file's content as pure functions
over strings, and proves what they achieve. The files are:

- `text.dfy`: the JavaScript string operations the code uses. These are
  substring search, `String.prototype.split` with a literal separator
  (cutting at every occurrence), `Array.prototype.join` (which writes an
  `undefined` element as the empty string), and an occurrence count.
- `markers.dfy`: the marker strings the code builds, and character-level
  facts that keep one marker from being mistaken for another.
- `catalog.dfy`: the fourteen names, `indexOf`, and the choice of anchor.
- `completer.dfy`: `getMissingSections`, one pass of the loop, the loop, and
  `addMissingSectionsToPbxProj`.
- `completion.dfy`: what the completer achieves on a well-formed file
  (`Completion.WellFormed`). This is a condition on marker counts only: the
  object-table opening occurs once, the end line of each present section
  occurs once, and the end line of each absent section does not occur. It
  says nothing about where the sections sit. On such a file:
  - every section is present afterwards;
  - each inserted section sits, empty, right after its anchor;
  - two neighbouring catalog entries that are both missing come out
    adjacent, in catalog order;
  - a second run changes nothing.

  It also shows a file that is not well-formed on which a pass loses a
  section that was present.

Four behaviours of the code are worth stating on their own:

- **Anchor occurs more than once.** `split` cuts at every occurrence of the
  anchor, and only the first two pieces are kept. So the text from the
  second occurrence on is dropped (`Completer.SpliceRepeated`).
- **Anchor is absent.** `split` returns a single piece, and the missing
  second piece joins as the empty string. So the anchor and the new section
  are appended to the end of the text (`Completer.SpliceAbsent`).
- **Running twice.** A second run changes nothing on well-formed files
  (`Completion.AddMissingIdempotent`). On a file that is not well-formed,
  one pass can lose a section that was present (`Completion.RepeatedAnchorLosesSection`).
- **Order of inserted sections.** Two neighbouring catalog entries that are
  both missing end up adjacent and in catalog order. Entries further apart
  need not, because well-formedness does not fix where sections sit.
  `Completion.OutOfOrderInsert` gives a well-formed file with a section
  ahead of the object table, on which the third catalog entry lands ahead
  of the first. On the same section placed after the opening, as Xcode
  writes it, the same passes keep catalog order (`Completion.InOrderInsert`).

## Model

| member | source | states |
|---|---|---|
| Catalog.CatalogNames | lib/pbxProjectFileUtils.js:8-23 | the catalog has fourteen distinct entries, each a non-empty run of ASCII letters, so no entry's marker can be read as another's |
| Catalog.IndexOf | lib/pbxProjectFileUtils.js:61 | `indexOf` is -1 exactly when the name is not in the list; otherwise it is the first index holding the name |
| Catalog.CatalogIndex | lib/pbxProjectFileUtils.js:61 | looking up a catalog entry gives back its own position, because the entries are distinct |
| Catalog.Anchor | lib/pbxProjectFileUtils.js:62-64 | every anchor, whether the object-table opening or a predecessor's end line, is one line of text followed by a blank line |
| Catalog.AnchorsEndApart | lib/pbxProjectFileUtils.js:62-64 | two anchors that end at the same place in a text are the anchor of the same catalog position |
| Markers.BeginMarker | lib/pbxProjectFileUtils.js:25 | the literal text the begin regex matches for a section |
| Markers.BeginLine | lib/pbxProjectFileUtils.js:27 | the begin line the completer writes for a section |
| Markers.EndLine | lib/pbxProjectFileUtils.js:28 | the end line, followed by a blank line, that the completer writes and searches for |
| Markers.EmptySection | lib/pbxProjectFileUtils.js:69-70 | the inserted text: a section's begin line followed by its end line |
| Markers.BeginLineHoldsMarker | lib/pbxProjectFileUtils.js:25-27 | the begin line the code writes is the text the begin regex matches plus a line break, and an empty section starts with that text |
| Markers.MarkerShapes | lib/pbxProjectFileUtils.js:25-29 | a begin marker holds no line break; an end line and the object-table opening are one line followed by a blank line; an empty section ends with a blank line |
| Markers.EndLinesInSection | lib/pbxProjectFileUtils.js:27-28 | an empty section holds its own end line exactly once and no other entry's end line |
| Markers.BeginMarkersInSection | lib/pbxProjectFileUtils.js:25-28 | an empty section holds an entry's begin marker if and only if it is that entry's section |
| Markers.NoObjectsStartInSection | lib/pbxProjectFileUtils.js:27-29 | an empty section never holds the object-table opening |
| Markers.EndLineTail | lib/pbxProjectFileUtils.js:28 | one end line ending where another ends means they are the same end line |
| Text.FindFrom | lib/pbxProjectFileUtils.js:65 | the search finds an occurrence at or after the start, with none before it, or reports that there is none |
| Text.Chars | lib/pbxProjectFileUtils.js:65 | `split` on the empty separator gives one piece per character, and joining them gives the text back |
| Text.Split | lib/pbxProjectFileUtils.js:65 | `split` with a non-empty separator returns at least one piece; joining the pieces with the separator gives the text back; no piece holds a non-empty separator |
| Text.SplitOn | lib/pbxProjectFileUtils.js:65 | cutting at every occurrence of a non-empty separator yields at least one piece and at most one more piece than the text has characters |
| Text.SplitOnJoin | lib/pbxProjectFileUtils.js:65 | joining the pieces of a `split` with the same separator gives the original text back |
| Text.Join | lib/pbxProjectFileUtils.js:73 | `join` writes the parts with the separator between neighbours; an empty array gives the empty string |
| Text.Part | lib/pbxProjectFileUtils.js:66-72 | reading `splitted[k]` past the end of the array gives `undefined`, which `join` writes as the empty string |
| Text.SplitPiecesFree | lib/pbxProjectFileUtils.js:65 | no piece of a `split` contains the separator |
| Text.SplitFirstTwo | lib/pbxProjectFileUtils.js:65-71 | with two occurrences found, the first two pieces are the text before the first and the text between the two |
| Completer.HasSection | lib/pbxProjectFileUtils.js:37 | a section is present exactly when its begin marker occurs in the content |
| Completer.MissingAmong | lib/pbxProjectFileUtils.js:37 | the filter keeps exactly the listed names whose begin marker is absent, and never adds entries |
| Completer.GetMissingSections | lib/pbxProjectFileUtils.js:35-38 | a name is reported if and only if it is a catalog entry whose begin marker is absent; the names come in strict catalog order, without repeats, at most fourteen |
| Completer.NoMarkersAllMissing | lib/pbxProjectFileUtils.js:37 | a text with none of the begin markers lacks every entry, in catalog order |
| Completer.AllMarkersNoneMissing | lib/pbxProjectFileUtils.js:37 | a text with every begin marker lacks nothing |
| Completer.Splice | lib/pbxProjectFileUtils.js:65-73 | the spliced text contains the anchor immediately followed by the inserted text, and is no longer than the input plus both |
| Completer.SpliceOnce | lib/pbxProjectFileUtils.js:65-73 | with the anchor occurring once, the inserted text lands right after it. Nothing else changes: the length grows by the inserted length, and cutting the insert out gives the input back |
| Completer.SpliceAbsent | lib/pbxProjectFileUtils.js:65-73 | without the anchor, the anchor and the inserted text are appended to the whole content |
| Completer.SpliceRepeated | lib/pbxProjectFileUtils.js:65-73 | with a second occurrence of the anchor, the result keeps the text only up to that occurrence, and is shorter than the input plus the insert by at least the anchor's length |
| Completer.InsertSection | lib/pbxProjectFileUtils.js:61-73 | one pass leaves the entry's anchor immediately followed by its empty section, and the entry present |
| Completer.InsertAll | lib/pbxProjectFileUtils.js:55-74 | after the loop, the last name it handled is present |
| Completer.AddMissingSections | lib/pbxProjectFileUtils.js:50-77 | a file lacking nothing is returned unchanged; otherwise the last missing entry is present afterwards |
| Completion.AnchorOnce | lib/pbxProjectFileUtils.js:62-65 | in a well-formed file, the anchor of a missing entry whose predecessor is present occurs exactly once, so `split` cuts there only |
| Completion.InsertStep | lib/pbxProjectFileUtils.js:55-73 | on a well-formed file, one pass inserts the empty section right after the single anchor and changes nothing else. The file stays well-formed, and exactly that entry becomes present |
| Completion.InsertAtBlankLine | lib/pbxProjectFileUtils.js:66-73 | an empty section inserted after a blank line adds its own markers and no other, so well-formedness is kept |
| Completion.InsertAllCompletes | lib/pbxProjectFileUtils.js:55-74 | the loop over the missing names, in catalog order, leaves a well-formed file with every section present, longer by exactly the inserted sections |
| Completion.AddMissingCompletes | lib/pbxProjectFileUtils.js:50-77 | on a well-formed file, the result is well-formed and complete, and a later `getMissingSections` returns nothing. The input is a subsequence of the result (deleting the added characters gives it back), and the result is longer by exactly the inserted empty sections |
| Completion.InsertKeepsText | lib/pbxProjectFileUtils.js:61-73 | on a well-formed file, one pass keeps every character of the text, in order, shifted past the insertion point by the inserted length |
| Completion.InsertAllKeepsText | lib/pbxProjectFileUtils.js:55-74 | on a well-formed file, the loop keeps the input as a subsequence of its result |
| Completion.AddMissingIdempotent | lib/pbxProjectFileUtils.js:50-77 | on a well-formed file, running the completer a second time changes nothing |
| Completion.AddMissingPlaces | lib/pbxProjectFileUtils.js:55-73 | every missing entry ends up empty, right after its anchor: the object-table opening for the first entry, the predecessor's end line for the others |
| Completion.AddMissingChains | lib/pbxProjectFileUtils.js:55-73 | two neighbouring entries that are both missing end up adjacent, in catalog order |
| Completion.SectionThenObjects | lib/pbxProjectFileUtils.js:27-29 | a text holding one empty section ahead of the object-table opening: the opening occurs once, and only that section's begin marker and end line occur |
| Completion.ObjectsThenSection | lib/pbxProjectFileUtils.js:27-29 | the same for the section placed after the object-table opening |
| Completion.OnlySectionWellFormed | lib/pbxProjectFileUtils.js:55-73 | a text whose only markers are the opening and one empty section is well-formed, whichever side of the opening the section sits on |
| Completion.FirstTwoMissing | lib/pbxProjectFileUtils.js:35-38 | with the first and third catalog entries absent and the second present, `getMissingSections` starts with the first and the third |
| Completion.TwoSplices | lib/pbxProjectFileUtils.js:65-73 | with the section ahead of the opening, splicing a section after the opening and then another after the present section's end line puts the second ahead of the first |
| Completion.TwoSplicesInOrder | lib/pbxProjectFileUtils.js:65-73 | with the section after the opening, the same two splices leave the three sections in catalog order |
| Completion.OutOfOrderInsert | lib/pbxProjectFileUtils.js:55-73 | a well-formed file with only `PBXContainerItemProxy`, ahead of the object table: the first two passes insert `PBXBuildFile` after the opening and then `PBXFileReference` ahead of it |
| Completion.InOrderInsert | lib/pbxProjectFileUtils.js:55-73 | the same section after the object table: the first two passes leave `PBXBuildFile`, `PBXContainerItemProxy` and `PBXFileReference` in catalog order |
| Completion.RepeatedEndLine | lib/pbxProjectFileUtils.js:37 | a text with an end line written twice before its section's begin marker has that section and no other |
| Completion.RepeatedAnchorLoses | lib/pbxProjectFileUtils.js:65-73 | splicing after an end line that occurs twice drops that section's begin marker, which came after the second copy |
| Completion.RepeatedAnchorLosesSection | lib/pbxProjectFileUtils.js:61-73 | for the first two catalog entries: the second is missing, and inserting it removes the first, which was present |

## Left out

- Reading and writing the file (lines 36, 52 and 76) and `path.resolve`: both operations take the file's content and return the content that would be written back.
- The constructor guard and `module.exports` (lines 4-6 and 79): they carry no logic.
- The regular-expression engine. The begin regex (line 25) escapes only the slash and star characters, and every name is made of letters, so the regex matches exactly the literal begin-marker text. It is modelled as substring containment. The end regex (line 26) is declared but never used.
- The downstream parser that reads the patched file is not part of this model.
- UTF-16 code units: strings are sequences of characters. The difference shows only in `split` on the empty separator, and no anchor is empty.
- Completion.AddMissingIdempotent: proved only for files satisfying `Completion.WellFormed`, not for every file. Without that layout one pass can lose a section that was present (`Completion.RepeatedAnchorLosesSection`). What later runs do on such a file is not modelled.
- Completion.AddMissingChains: only neighbouring catalog entries are proved to be ordered. `Completion.WellFormed` constrains marker counts, not positions, so entries further apart can come out of catalog order. On a well-formed file with only the `PBXContainerItemProxy` section, placed ahead of `objects = {` and a blank line (not where Xcode puts a section), `PBXBuildFile` goes after the opening and `PBXFileReference` after the `PBXContainerItemProxy` end line, ahead of it (`Completion.OutOfOrderInsert`). On files whose present sections follow the opening in catalog order, each insert lands after every earlier entry and before every later one, so catalog order is kept. That is shown for one file (`Completion.InOrderInsert`) but not proved in general.
- Both reads of the file (line 36, reached from line 51, and line 52) are modelled as seeing the same content. The code does nothing to guard against a write to the file between them.
- Completion.AddMissingCompletes: proved only for files satisfying `Completion.WellFormed`. On other files the code can append sections at the end or lose text (`Completer.SpliceAbsent`, `Completer.SpliceRepeated`). Besides asking that the object-table opening and the end line of every present section occur once, `WellFormed` asks that a missing entry's end line does not occur at all. Otherwise, once the entry is inserted, its end line would occur twice, and the next pass anchored on it would drop text.
- Completion.WellFormed: the layout does not constrain the end line of `XCConfigurationList`. That line anchors nothing, and a real file closes that section with the object table's closing brace rather than a blank line.
