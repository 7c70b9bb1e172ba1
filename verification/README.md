# The ZIP engine of archive-rw

This project models the archive engine bundled in `libs/archive-rw` (libzip with the prefix-data
change): the wire format and the rewrite on close, the fragmented memory source that makes writing
transactional, the name index and the edits that keep it, the layered source protocol, extra-field
lists and name encodings. What an `.allexe` file relies on is proved of that model for all inputs.

Most of the engine changes things step by step, so the model does: cursors, buffers, field lists, the
hash table, the archive and the sources are classes whose methods follow the original's loops and
branches, and each method is tied to a function of the inputs or the old state. The theorems are
lemmas about those functions.

How the modules fit together:

- `Bytes`, `ZipBuffer`: little-endian records as tables of widths; the bounds-checked cursor.
- `Encoding`, `ExtraField`: name classification, CP437 to UTF-8; extra-field lists in two views.
- `Output`, `Dirent`, `DirentReader`, `DirentRoundTrip`: headers written, headers read by APPNOTE offset, and when the two are inverse.
- `Directory`, `DirectoryRoundTrip`: the central directory and its end records, in both forms.
- `AddData`, `Close`, `CloseRoundTrip`, `CloseHistory`: the rewrite on close, reopening what it wrote, and what a failed close does to the next one.
- `FragmentBuffer`, `MemorySource`: the buffer of fragments over an explicit heap, and transactions on it.
- `NameHash`, `NameIndex`: the chained table as a map with two views, and the edits of an archive.
- `SourceStack`, `Window`, `CrcSource`: open counts and references, windows on a shared source, the CRC source.

Where the code departs from what one would expect of it, the exact condition is proved instead, with a concrete case that fails:

- A size or offset of exactly 0xffffffff with none larger is written without the Zip64 value that the
  reader then misses (`DirentRoundTrip.RoundTrip`, `DirentRoundTrip.UnluckyIsRefused`,
  libs/archive-rw/zip_dirent.c:801 and :807 against :893-927).
- The directory's own size takes no part in the Zip64 decision, so a plain directory of more than
  0xffffffff bytes is written and then refused (`DirectoryRoundTrip.DirectoryRoundTrip`,
  `DirectoryRoundTrip.LongDirectoryIsRefused`).
- A stale compressed size of 0xffffffff or more in an entry with new data makes the two local headers
  disagree on the Zip64 field, and closing fails with an internal error, libs/archive-rw/zip_close.c:511-515
  (`AddData.HonestRewriteFits`, `AddData.StaleSizeIsRefused`, `CloseRoundTrip.StaleSizeFails`).
- A close that fails leaves the entries it has rewritten with the places it gave them, marked as unchanged.
  If the next close leaves such an entry where it is, it records the wrong place, and readers get another
  entry's data (`CloseRoundTrip.CloseThenReopen`, `CloseRoundTrip.AttemptRecords`, `CloseHistory.StaleRecord`,
  libs/archive-rw/zip_close.c:171-201).
- Setting a field in both views while replacing one that only one view had can push the other view over
  65535 bytes (`ExtraField.SetKeepsLimit`, `ExtraField.SetCanExceedLimit`).
- Writing before the clone point shows in the reader before any commit (`MemorySource.StepReader`,
  `MemorySource.CarelessWriteLeaks`).
- A clone of a buffer that owns none of the shared fragments takes one of them and frees it later
  (`MemorySource.Source.Commit`, `MemorySource.CommitLedger`, `MemorySource.UnownedClone`).
- A seek on a buffer without fragments reads outside its table (`FragmentBuffer.FirstProbe`,
  `MemorySource.UndefinedSeek`); runs of a memory source are those without one.
- An empty fragment leaves a hole in a new buffer's offset table (`FragmentBuffer.TableIsRight`).
- Unchanging or replacing a deleted entry brings it back without its name, renaming away from an empty name
  leaves it in the index, and duplicate names are indexed once (`NameIndex.StepKeeps`,
  `NameIndex.RevivedIsLost`, `NameIndex.EmptyNameStays`, `NameIndex.OpenAgrees`).
- A window that reaches past the source below it fails when it gets there, and the failure stays with it
  and every window on top of it until it is opened again (`Window.NestedIffNeverFails`,
  `Window.OverreachPoisons`). A read moves the sources below, so a source's own reader is disturbed by
  windows on top of it, and by no others (`Window.DisturbedFromAbove`, `Window.LayeredReadSkips`).
- Closing a source that one has not opened takes away an open that a layered source holds
  (`SourceStack.CloseOnlyOwn`, `SourceStack.ForeignClose`).
- A reserved hash table can be smaller than 256, so the size invariant is "a power of two"
  (`NameHash.SizeForCapacity`).

## Model

| member | source | states |
|---|---|---|
| `Bytes.NatOfLe` | libs/archive-rw/zip_buffer.c:230-280 | Reading back a little-endian number gives its value modulo the field width, for every width up to eight bytes. |
| `Bytes.LeOfNat` | libs/archive-rw/zip_buffer.c:80-112 | Every byte string of a field's width is the encoding of the number read from it, so the fixed-width codec is a bijection. |
| `Bytes.RecordRoundTrip` | libs/archive-rw/zip_buffer.c:80-112 | A record written field by field from a width table reads back to the same values whatever follows it. |
| `ZipBuffer.Cursor.Get` | libs/archive-rw/zip_buffer.c:65-77 | Returns exactly the next bytes and moves past them, or fails, clears `ok` for good and moves nothing, including when offset plus length would wrap. |
| `ZipBuffer.Cursor.GetUint` | libs/archive-rw/zip_buffer.c:79-125 | The little-endian number in the next bytes; 0 with `ok` cleared when they do not fit. |
| `ZipBuffer.Cursor.PutUint` | libs/archive-rw/zip_buffer.c:229-293 | Appends the number's little-endian bytes to what has been put so far and changes nothing behind them. |
| `ZipBuffer.Cursor.SetOffset` | libs/archive-rw/zip_buffer.c:296-307 | Succeeds exactly for positions inside the buffer and then revives `ok`; a failing call clears it and leaves the position. |
| `ZipBuffer.Cursor.Skip` | libs/archive-rw/zip_buffer.c:310-318 | Moves by the length if that neither wraps nor leaves the buffer, otherwise clears `ok`. |
| `Encoding.GuessEncoding` | libs/archive-rw/zip_utf-8.c:99-157 | The verdict of the classifier and the encoding it records in the string, for every expected encoding. |
| `Encoding.ScanAccepts` | libs/archive-rw/zip_utf-8.c:99-146 | A string is taken for ASCII or UTF-8 if and only if it is a sequence of printable bytes and lead bytes with their full number of continuation bytes. |
| `Encoding.ScanAscii` | libs/archive-rw/zip_utf-8.c:99-146 | It is taken for ASCII exactly if every byte is printable ASCII. |
| `Encoding.DecodeOne` | libs/archive-rw/zip_utf-8.c:172-194 | Decoding an encoded code point by the bit layout of section 3 of RFC 3629 gives it back, at each of the four lengths. |
| `Encoding.ConvertedLength` | libs/archive-rw/zip_utf-8.c:160-169 | The length pass computes exactly the number of bytes of the conversion. |
| `Encoding.Cp437ToUtf8` | libs/archive-rw/zip_utf-8.c:197-226 | The fill pass writes the UTF-8 form of each byte's table code point, in order, filling the computed length exactly, and a final NUL. |
| `Encoding.ConversionIsExact` | libs/archive-rw/zip_utf-8.c:197-226 | Decoding a converted string gives the table's code points of the input, one per byte. |
| `Encoding.ConversionIsInjective` | libs/archive-rw/zip_utf-8.c:44-97 | Distinct CP437 strings convert to distinct UTF-8 strings. |
| `Encoding.ConversionIsRecognised` | libs/archive-rw/zip_utf-8.c:99-157 | The classifier accepts a converted string as ASCII or UTF-8 if and only if the input has no NUL. |
| `ExtraField.Parse` | libs/archive-rw/zip_extra_field.c:201-267 | The parsed fields of any byte string in a view, or rejection: what is left at the end must be at most three zero bytes. |
| `ExtraField.ParseWritten` | libs/archive-rw/zip_extra_field.c:201-267 | Parsing the bytes written for a view, with at most three zero bytes behind, returns that view's fields in order. |
| `ExtraField.WrittenParse` | libs/archive-rw/zip_extra_field.c:201-267 | Whatever the parser accepts is the written form of its parse followed by at most three zero bytes. |
| `ExtraField.Size` | libs/archive-rw/zip_extra_field.c:299-310 | The computed size is the written length modulo 65536, so the length itself whenever it is at most 65535. |
| `Dirent.WriteFields` | libs/archive-rw/zip_extra_field.c:313-347 | Writes the fields of the view in list order at the write position, over or past what was there. |
| `ExtraField.FieldList.GetById` | libs/archive-rw/zip_extra_field.c:115-140 | The data of the k-th field of the id in the view, if there is one. |
| `ExtraField.FieldList.DeleteKth` | libs/archive-rw/zip_extra_field.c:66-99 | The list with just the k-th matching field taken out of the view. |
| `ExtraField.FieldList.DeleteEvery` | libs/archive-rw/zip_extra_field.c:66-99 | The list with every matching field taken out of the view. |
| `ExtraField.FieldList.RemoveInternal` | libs/archive-rw/zip_extra_field.c:270-296 | The list without the ids the format itself uses. |
| `ExtraField.FieldList.Merge` | libs/archive-rw/zip_extra_field.c:143-174 | The first list with the second's fields joined in, each once per id and data, its views united. |
| `ExtraField.FieldList.Set` | libs/archive-rw/zip_extra_field_api.c:220-319 | The new list, or refusal with the list unchanged, by the 65535 check the code makes on the views concerned. |
| `ExtraField.DeleteLaw` | libs/archive-rw/zip_extra_field.c:66-99 | In a single view, deleting the k-th field of an id leaves lookups before k alone, shifts later ones down by one, and leaves the other view's fields as they were. |
| `ExtraField.DeleteAllLaw` | libs/archive-rw/zip_extra_field.c:66-99 | Deleting all fields of an id leaves none of them in the view, and leaves other ids and the other view alone. |
| `ExtraField.SetLaw` | libs/archive-rw/zip_extra_field_api.c:265-319 | After a set in a single view the k-th lookup gives the new data and all other lookups in that view, of this id and of any other, are as before. |
| `ExtraField.SetLeavesOther` | libs/archive-rw/zip_extra_field_api.c:290-319 | A set in one view leaves the other view's fields and their order as they were. |
| `ExtraField.SetKeepsLimit` | libs/archive-rw/zip_extra_field_api.c:265-288 | From lists within 65535 bytes a successful set stays within them in every view, unless replacing a field that only one of two set views had; the exact condition. |
| `ExtraField.SetCanExceedLimit` | libs/archive-rw/zip_extra_field_api.c:265-288 | A concrete list and an allowed set after which one view is longer than 65535 bytes. |
| `ExtraField.MergeLaw` | libs/archive-rw/zip_extra_field.c:143-174 | In each view the merged list has exactly the (id, data) pairs of the two lists together. |
| `Dirent.CentralHeader` | libs/archive-rw/zip_dirent.c:862-931 | The fixed part of a central header, field by field at the widths of APPNOTE 4.3.12. |
| `Dirent.LocalHeader` | libs/archive-rw/zip_dirent.c:862-931 | The fixed part of a local header, field by field at the widths of APPNOTE 4.3.7, both sizes capped together. |
| `Dirent.MakeZip64Data` | libs/archive-rw/zip_dirent.c:787-831 | The Zip64 data: both sizes locally, centrally exactly the values of 0xffffffff and more, and nothing unless forced or exceeded. |
| `Dirent.MakeUtf8Field` | libs/archive-rw/zip_dirent.c:1002-1036 | The Unicode field of a string, refused exactly if it does not fit 65535 bytes. |
| `Dirent.EncodingFields` | libs/archive-rw/zip_dirent.c:755-778 | Whether name and comment share the UTF-8 flag, and otherwise the Unicode fields that stand in for it, in the order they are linked. |
| `Dirent.Write` | libs/archive-rw/zip_dirent.c:742-978 | Writes the header, name, generated and own fields and comment at the write position, returns the entry with its flags updated and whether it has a Zip64 field; fails, writing nothing, exactly when a string is too long for its Unicode field. |
| `DirentReader.ReadFixed` | libs/archive-rw/zip_dirent.c:360-422 | The fixed part by byte offset of APPNOTE 4.3.7 or 4.3.12, and the three lengths. |
| `DirentReader.ProcessUtf8` | libs/archive-rw/zip_dirent.c:580-612 | A Unicode field replaces the string exactly if its version is 1 and its CRC is that of the string. |
| `DirentReader.ProcessZip64` | libs/archive-rw/zip_dirent.c:504-551 | Sizes, offset and disk come from the Zip64 field exactly where the header holds the marker value; a field too short or too long is inconsistent. |
| `DirentReader.ReadDirent` | libs/archive-rw/zip_dirent.c:328-577 | The entry and the bytes consumed, or the error, as a function of the bytes ahead alone; the buffer ends right behind the entry. |
| `DirentRoundTrip.RoundTrip` | libs/archive-rw/zip_dirent.c:328-577 | Reading a written central or local header returns the entry, with its sizes, offset, CRC, strings and fields, and consumes exactly its bytes, if and only if its Zip64 values are sound; otherwise the reader reports an inconsistent archive. |
| `DirentRoundTrip.UnluckyIsRefused` | libs/archive-rw/zip_dirent.c:504-551 | A concrete entry, its compressed size 0xffffffff, that is written and does not read back, in either header, whatever follows it. |
| `DirentRoundTrip.PartsRoundTrip` | libs/archive-rw/zip_dirent.c:698-729 | The size computed from a written header is its whole length, and its name, extra and comment parts are cut out exactly. |
| `DirentRoundTrip.Zip64RoundTrip` | libs/archive-rw/zip_dirent.c:504-551 | The written Zip64 field restores sizes and offset if and only if no value of exactly 0xffffffff stands without a larger one and the disk number is not the marker. |
| `DirentRoundTrip.StringRoundTrip` | libs/archive-rw/zip_dirent.c:580-612 | A string keeps its bytes, and its UTF-8 encoding through the flag or the Unicode field. |
| `DirentRoundTrip.NameRoundTrip` | libs/archive-rw/zip_io_util.c:93-99 | A name comes back as it was, except that a name to be guessed again has spaces for NULs. |
| `DirentRoundTrip.GeneratedLookups` | libs/archive-rw/zip_dirent.c:501-574 | The reader finds just the generated fields under the internal ids and leaves just the entry's own. |
| `DirectoryRoundTrip.PlainEntryIsSound` | libs/archive-rw/zip_dirent.c:742-978 | Any entry below the Zip64 limits with moderate strings and no fields of its own meets every condition of the round trips, in both headers. |
| `Directory.WriteEntries` | libs/archive-rw/zip_dirent.c:139-148 | Writes all entries in order and reports whether any needs Zip64; fails exactly if one cannot be encoded. |
| `Directory.WriteDirectory` | libs/archive-rw/zip_dirent.c:122-213 | Writes the entries, the Zip64 end record and locator when needed, the end record and the comment; succeeds exactly if all entries are encodable and the end of the entries can be told. |
| `Directory.MakeEndRecords` | libs/archive-rw/zip_dirent.c:160-197 | The end records of APPNOTE 4.3.14 to 4.3.16, counts and sizes capped in the plain one. |
| `Directory.ReadEocd` | libs/archive-rw/zip_open.c:671-727 | What a plain end record says, refused when it spans disks, disagrees on counts, reaches past itself or, in strict mode, when the directory does not end where it starts. |
| `Directory.ReadEocd64` | libs/archive-rw/zip_open.c:730-868 | What the Zip64 end record behind the locator says, with the disk numbers of the record where the locator has the marker; in strict mode the record must end at the locator, the directory at the record, and the disk numbers agree. |
| `Directory.ReadLoop` | libs/archive-rw/zip_open.c:368-408 | All entries of the directory's bytes in order; the number read is the number announced, or the archive is inconsistent. |
| `Directory.ReadComment` | libs/archive-rw/zip_open.c:305-333 | The archive comment, refused if it does not fit or, in strict mode, if anything follows it. |
| `Directory.ReadCdir` | libs/archive-rw/zip_open.c:273-436 | Entries and comment of the archive whose end record is at the given place, or an error, as a function of the file. |
| `DirectoryRoundTrip.EntriesRoundTrip` | libs/archive-rw/zip_open.c:368-408 | The bytes written for any list of storable entries read back to that list in order if and only if the Zip64 values of all are sound; otherwise the directory is refused. |
| `DirectoryRoundTrip.CutDirectory` | libs/archive-rw/zip_open.c:368-408 | A directory cut short anywhere is refused. |
| `DirectoryRoundTrip.EndingRoundTrip` | libs/archive-rw/zip_open.c:273-314 | From either form of the written end records the reader, strict or not, takes the count, size and offset they were written with, the size capped in plain form. |
| `DirectoryRoundTrip.DirectoryRoundTrip` | libs/archive-rw/zip_open.c:273-436 | For any storable entries, parsing at the written end record, strictly or not, gives exactly the entries in order and the comment if and only if the Zip64 values of all are sound and the directory is in Zip64 form or its size fits 32 bits; otherwise it is refused. |
| `DirectoryRoundTrip.LongDirectoryIsRefused` | libs/archive-rw/zip_dirent.c:139-197 | A concrete list of 65535 storable, sound entries whose plain directory of more than 0xffffffff bytes can be written and is refused on reading. |
| `AddData.CopySource` | libs/archive-rw/zip_close.c:554-585 | Copies all of the source, block by block, to the write position. |
| `AddData.AddEntry` | libs/archive-rw/zip_close.c:282-525 | Preliminary header, data, final header over the preliminary one, position back at the end of the data; fails exactly if the name cannot be encoded, a position cannot be told or the two headers disagree on the Zip64 field. |
| `AddData.RewriteFits` | libs/archive-rw/zip_close.c:488-518 | The final header covers the preliminary one exactly if and only if their Zip64 fields are as long. |
| `AddData.RewriteKeepsData` | libs/archive-rw/zip_close.c:488-518 | A rewrite that fits leaves the final header followed by the data untouched. |
| `AddData.DeflateLimit` | libs/archive-rw/zip_close.c:319-370 | 4293656963 is the largest size whose worst-case deflate output stays below 0xffffffff: size is within the limit if and only if its worst case is. |
| `AddData.HonestRewriteFits` | libs/archive-rw/zip_close.c:319-370 | With a source that keeps its word both headers make the same Zip64 decision and have the same length if and only if no stale compressed size of 0xffffffff or more is left in the entry. |
| `AddData.StaleDisagrees` | libs/archive-rw/zip_close.c:511-518 | With a source that keeps its word and a stale size, the two headers disagree on having a Zip64 field, which is the internal error of `add_data`. |
| `AddData.StaleSizeIsRefused` | libs/archive-rw/zip_close.c:319-370 | A concrete entry with an old compressed size of 0xffffffff and ten honest new bytes, for which the headers disagree. |
| `Close.Archive.CountSurvivors` | libs/archive-rw/zip_close.c:608-634 | The number of entries not deleted, and whether anything at all has changed. |
| `Close.Archive.ListSurvivors` | libs/archive-rw/zip_close.c:97-120 | The survivors' indices in order and the lowest offset of a changed old entry. |
| `Close.Archive.DecideKept` | libs/archive-rw/zip_close.c:122-151 | How much of the old file is kept in place, 0 where cloning does not apply. |
| `Close.LastIsOld` | libs/archive-rw/zip_close.c:129-137 | The search finds an old entry of highest offset if there is any. |
| `Close.Archive.ReadLocalFields` | libs/archive-rw/zip_extra_field.c:350-426 | The local header's fields, without internal ones, joined to the entry's list once, and to its changes unless they already had them. |
| `Close.Archive.CopyData` | libs/archive-rw/zip_close.c:529-550 | Copies exactly the asked stretch of the old file, failing exactly if it runs past the end. |
| `Close.RewrittenBlock` | libs/archive-rw/zip_close.c:178-258 | A rewritten survivor knows its place and, if its two headers agree in length, fills exactly its extent of the new file. |
| `Close.Archive.PlaceEntry` | libs/archive-rw/zip_close.c:178-258 | One turn of the main loop: the survivor's block behind what was written, its place and data recorded in its changes; succeeds exactly when the plan has it succeed; a failed turn touches nothing but the entry's changes and field lists. |
| `Close.Archive.PlaceEntries` | libs/archive-rw/zip_close.c:165-258 | The whole main loop lays the survivors out as planned, skipping those already in place, and leaves each entry it came to with its new record, whether or not it comes to its end. |
| `Close.Archive.Close` | libs/archive-rw/zip_close.c:59-279 | Nothing to do leaves the file; no survivors removes it; otherwise the new file is the kept part, the prefix, the survivors' blocks and the directory, success is decided exactly by the plan, and failure leaves the old file, but the entries it came to with their new records. |
| `CloseRoundTrip.SurvivorKeeps` | libs/archive-rw/zip_close.c:184-258 | A rewritten survivor keeps everything that is not its own to change: copied, its data are the old file's behind its old local header; with new data, those of its source, with their size, method and CRC; its extra fields are its own joined with the local header's. |
| `CloseRoundTrip.HonestSurvivorFits` | libs/archive-rw/zip_close.c:282-525 | With a source that keeps its word a rewritten survivor's two headers agree in length, and a copied one has only one. |
| `CloseRoundTrip.StaleSizeFails` | libs/archive-rw/zip_close.c:488-515 | New data from a source that keeps its word is written, other conditions being met, if and only if the entry held no compressed size of 0xffffffff or more that is not replaced in advance; otherwise, and only then, the write fails with an internal error. |
| `CloseRoundTrip.StaleSizeStops` | libs/archive-rw/zip_close.c:161-278 | A survivor with such a stale size makes the whole close fail. |
| `CloseRoundTrip.LaidStands` | libs/archive-rw/zip_close.c:161-258 | In the laid-out file every rewritten survivor's header stands at its offset and its data behind it. |
| `CloseRoundTrip.LocalStart` | libs/archive-rw/zip_file_get_offset.c:50-76 | The offset of an entry's data is the end of its local header. |
| `CloseRoundTrip.CloseThenReopen` | libs/archive-rw/zip_close.c:161-262 | With sources that keep their word, reopening the closed file at its end record gives exactly the survivors in index order and the comment if and only if their Zip64 values are sound and the directory is Zip64 or fits 32 bits; at each rewritten survivor's offset stand its local header and exactly its data; and of an archive of disjoint entries, each skipped survivor's record leads to its old header and data if and only if it gives the old place and size, as it does until a close fails. |
| `CloseRoundTrip.SkippedIsSafe` | libs/archive-rw/zip_close.c:97-151 | A skipped survivor is neither deleted nor changed, and the kept part wholly contains it if the old entries lie apart. |
| `CloseRoundTrip.EndAfterStart` | libs/archive-rw/zip_file_get_offset.c:79-120 | An entry's end, data descriptor included, lies behind its header and all its data. |
| `CloseRoundTrip.CloningIsSafe` | libs/archive-rw/zip_close.c:171-184 | Every changed or new survivor is rewritten, and in an archive of disjoint entries every skipped one is found in the new file byte for byte where it was. |
| `CloseRoundTrip.LeadsIffRecorded` | libs/archive-rw/zip_close.c:171-174 | Where an entry has been left in place, a reader who follows its directory record arrives at its header and data if and only if the record gives the old offset and compressed size. |
| `CloseRoundTrip.UnattemptedIsRecorded` | libs/archive-rw/zip_close.c:171-189 | As long as every entry with changes has been changed, every skipped entry is recorded where it is. |
| `CloseRoundTrip.AttemptRecords` | libs/archive-rw/zip_close.c:178-201 | A close that fails after rewriting an unchanged entry leaves it counting as unchanged, and recorded where it is if and only if it had been put back to the same place. |
| `CloseHistory.FirstClose` | libs/archive-rw/zip_close.c:171-278 | A concrete close, of an archive whose first entry has been deleted and whose last is cut off, fails and leaves the middle entry recorded at the place of the first. |
| `CloseHistory.SecondClose` | libs/archive-rw/zip_close.c:97-151 | With the first entry restored and the last deleted, the next close skips both others, and a reader of its file takes the data of the second from where the first is. |
| `CloseHistory.StaleRecord` | libs/archive-rw/zip_close.c:171-189 | The whole history, run through `Close.Archive.Close`: the second close succeeds, and the file it leaves gives the data of one entry for another. |
| `FragmentBuffer.Buffer.FindFragment` | libs/archive-rw/zip_source_buffer.c:334-355 | The binary search returns the fragment that brackets the offset, the last one for the end. |
| `FragmentBuffer.FirstProbe` | libs/archive-rw/zip_source_buffer.c:338-343 | In 64-bit arithmetic the first place the search looks at lies in the table of offsets if and only if there is a fragment. |
| `FragmentBuffer.Buffer.Gather` | libs/archive-rw/zip_source_buffer.c:480-498 | The reading loop copies exactly the asked stretch of the flat view across any fragments, empty steps included, and ends in a bracketing fragment. |
| `FragmentBuffer.Buffer.Read` | libs/archive-rw/zip_source_buffer.c:467-499 | Delivers the next bytes of the one flat sequence, clipped at its size, and moves the cursor past them. |
| `FragmentBuffer.Buffer.Seek` | libs/archive-rw/zip_source_buffer.c:501-513 | Moves to the computed offset with the cached fragment bracketing it, or stays. |
| `FragmentBuffer.Buffer.Grow` | libs/archive-rw/zip_source_buffer.c:522-552 | Adds fragments of 64 KiB until the bytes fit, touching no memory there was and leaving the contents. |
| `FragmentBuffer.Buffer.Scatter` | libs/archive-rw/zip_source_buffer.c:554-570 | The writing loop overwrites exactly the stretch of the flat view and leaves earlier fragments, other blocks and the blocks' tails alone. |
| `FragmentBuffer.Buffer.Write` | libs/archive-rw/zip_source_buffer.c:515-579 | The contents with the data spliced in at the offset, or no change at all when offset and length wrap. |
| `FragmentBuffer.StoreFlat` | libs/archive-rw/zip_source_buffer.c:560-570 | Storing into one of distinct fragments overwrites just its place in the flat view. |
| `FragmentBuffer.Buffer.Clone` | libs/archive-rw/zip_source_buffer.c:280-331 | A buffer of the first bytes, sharing their fragments; succeeds exactly if the offset is within the size, nothing is shared yet and no more of the last fragment is wasted than kept. |
| `FragmentBuffer.CutFlat` | libs/archive-rw/zip_source_buffer.c:303-318 | The cut list of fragments is a prefix of the original's bytes. |
| `FragmentBuffer.Buffer.Free` | libs/archive-rw/zip_source_buffer.c:358-379 | Frees exactly the owned fragments that are not shared, each of which must be live, and ends the sharing. |
| `FragmentBuffer.FillTable` | libs/archive-rw/zip_source_buffer.c:430-464 | The fragments and the offset table `buffer_new` leaves in fresh memory, or refusal of a missing address. |
| `FragmentBuffer.TableIsRight` | libs/archive-rw/zip_source_buffer.c:444-456 | The offset table is right whatever the fresh memory held if and only if no fragment handed in is empty. |
| `MemorySource.Source.Open` | libs/archive-rw/zip_source_open.c:37-75 | Refines the step of the abstract source: the first open starts from the beginning. |
| `MemorySource.Source.Close` | libs/archive-rw/zip_source_close.c:38-57 | One open fewer, refused when there is none. |
| `MemorySource.Source.Read` | libs/archive-rw/zip_source_buffer.c:198-203 | Exactly the reader's next bytes. |
| `MemorySource.Source.Seek` | libs/archive-rw/zip_source_seek.c:38-59 | Refines the abstract seek of the reader. |
| `MemorySource.Source.BeginWrite` | libs/archive-rw/zip_source_begin_write.c:38-52 | Empty pending output, refused while there is some. |
| `MemorySource.Source.BeginCloning` | libs/archive-rw/zip_source_begin_write_cloning.c:38-52 | Pending output that starts as the reader's first bytes and shares them, granted under the exact condition of the clone. |
| `MemorySource.Source.Write` | libs/archive-rw/zip_source_write.c:38-46 | The pending output with the data spliced in, and the reader changed exactly where shared bytes were overwritten. |
| `MemorySource.Source.SeekWrite` | libs/archive-rw/zip_source_seek_write.c:38-51 | Refines the abstract seek of the pending output. |
| `MemorySource.Source.Commit` | libs/archive-rw/zip_source_commit_write.c:38-63 | The pending output becomes what readers see, refused while a second reader is open; afterwards every block is accounted for if and only if nothing was shared or a shared fragment was the source's own. |
| `MemorySource.UnownedClone` | libs/archive-rw/zip_source_buffer.c:320-331 | A concrete source over data that was not handed over, cloned and committed: its account of blocks does not balance. |
| `MemorySource.Source.Rollback` | libs/archive-rw/zip_source_rollback_write.c:38-46 | The pending output goes and nothing a reader sees changes. |
| `MemorySource.Source.Remove` | libs/archive-rw/zip_source_remove.c:38-60 | Nothing is left to read, pending output included. |
| `MemorySource.Source.Release` | libs/archive-rw/zip_source_buffer.c:187-191 | If the account balanced, every block of the source is freed exactly once and no other. |
| `MemorySource.Source.NoFragmentsNoBytes` | libs/archive-rw/zip_source_buffer.c:501-513 | A source has no fragments only if its bytes are none, so a seek that is defined for the bytes is defined for the fragments. |
| `MemorySource.Source.Do` | libs/archive-rw/zip_source_buffer.c:154-277 | Any one defined operation refines the abstract step, and a source that owns all it has loses no block and frees no other. |
| `MemorySource.Source.Play` | libs/archive-rw/zip_source_buffer.c:154-277 | Any list of operations, up to the first seek that is not defined, refines the abstract run, all of which is defined. |
| `MemorySource.UndefinedSeek` | libs/archive-rw/zip_source_buffer.c:334-343 | A concrete run, beginning a write and seeking to its start, that is not defined, and is once a byte has been written. |
| `MemorySource.StepReader` | libs/archive-rw/zip_source_buffer.c:154-277 | A step other than commit and removal changes what a reader sees if and only if it overwrites shared bytes with different ones. |
| `MemorySource.ReaderIsStable` | libs/archive-rw/zip_source_buffer.c:154-277 | Over any defined run without commit and removal in which no write starts before the clone point, the reader's bytes stay. |
| `MemorySource.CarelessWriteLeaks` | libs/archive-rw/zip_source_buffer.c:515-579 | A concrete run in which an uncommitted write before the clone point reaches the reader. |
| `MemorySource.WriterIsFlat` | libs/archive-rw/zip_source_buffer.c:515-579 | Any defined run of writes and seeks, of any sizes, leaves the pending output as one flat file with one position would be. |
| `MemorySource.Transaction` | libs/archive-rw/zip_source_buffer.c:154-277 | A whole defined transaction: the old bytes until the commit, then exactly the kept prefix as written over, and the old bytes still after a rollback. |
| `MemorySource.LinkedWrite` | libs/archive-rw/zip_source_buffer.c:515-579 | A write through fragments shared with the reader, as the reader sees it. |
| `MemorySource.CommitLedger` | libs/archive-rw/zip_source_buffer.c:320-324 | The account of blocks balances after committing a clone if and only if a shared fragment was owned. |
| `NameHash.Table.HashString` | libs/archive-rw/zip_hash.c:78-92 | The 32-bit multiplicative hash of the name. |
| `NameHash.Table.Resize` | libs/archive-rw/zip_hash.c:96-132 | Every entry moves to its chain in a table of the new size, and the map stays. |
| `NameHash.SizeForCapacity` | libs/archive-rw/zip_hash.c:135-163 | The bit smearing yields the least power of two that is at least four thirds of the capacity, capped at 2^31. |
| `NameHash.SmearStep` | libs/archive-rw/zip_hash.c:154-160 | Or-ing a number with itself shifted by w doubles its run of leading ones. |
| `NameHash.Table.Add` | libs/archive-rw/zip_hash.c:204-260 | The name's new index in the current view, and in the original one if asked, or an error and no change; the table keeps its size invariant. |
| `NameHash.Table.Delete` | libs/archive-rw/zip_hash.c:263-307 | The name goes, or loses its current index if it is an original one; the table keeps its size invariant. |
| `NameHash.Table.Lookup` | libs/archive-rw/zip_hash.c:311-343 | The index in the asked view, found exactly if that view has the name. |
| `NameHash.Table.ReserveCapacity` | libs/archive-rw/zip_hash.c:346-365 | The table never shrinks, has room as asked, keeps its contents and its size invariant. |
| `NameHash.Table.Revert` | libs/archive-rw/zip_hash.c:368-410 | The current view becomes the original one; the shrink loop keeps the size invariant. |
| `NameHash.Table.Shrunk` | libs/archive-rw/zip_hash.c:399-407 | The new size is the first halving that is full enough or minimal. |
| `NameHash.ChainsCount` | libs/archive-rw/zip_hash.c:204-343 | The entry count is the number of names. |
| `NameHash.OriginalStays` | libs/archive-rw/zip_hash.c:204-343 | No run of edits changes the original view of any name. |
| `NameHash.RevertRestores` | libs/archive-rw/zip_hash.c:368-410 | After any run of edits reverting makes the current view equal the original one for every name. |
| `NameHash.RevertedChains` | libs/archive-rw/zip_hash.c:373-397 | Reverting chain by chain leaves a table for the reverted map. |
| `NameIndex.Archive.constructor` | libs/archive-rw/zip_open.c:221-246 | Every entry's name registered in order, duplicates passed over. |
| `NameIndex.Archive.SetName` | libs/archive-rw/zip_set_name.c:41-157 | Entries, index and error after renaming, for every state. |
| `NameIndex.Archive.Rename` | libs/archive-rw/zip_file_rename.c:40-67 | Renaming with its checks, a directory staying one. |
| `NameIndex.Archive.UnchangeEntry` | libs/archive-rw/zip_unchange.c:46-93 | Entries, index and error after unchanging, with or without looking after the index. |
| `NameIndex.Archive.Unchange` | libs/archive-rw/zip_unchange.c:40-43 | Unchanging one entry. |
| `NameIndex.Archive.Delete` | libs/archive-rw/zip_delete.c:38-68 | The name leaves the index, the edits go, the entry is marked; or an error and no change. |
| `NameIndex.Archive.UnchangeAll` | libs/archive-rw/zip_unchange_all.c:40-56 | All entries as opened, the index reverted. |
| `NameIndex.Archive.PutSource` | libs/archive-rw/zip_file_replace.c:54-105 | New data for an entry, found by index or name or newly added; a failed addition is undone. |
| `NameIndex.SetNameKeeps` | libs/archive-rw/zip_set_name.c:41-157 | Renaming a live entry keeps index and entries in agreement, or fails and changes nothing. |
| `NameIndex.UnchangeKeeps` | libs/archive-rw/zip_unchange.c:46-93 | A successful unchange keeps agreement if and only if it does not bring back a deleted entry; a failed one changes nothing. |
| `NameIndex.DeleteKeeps` | libs/archive-rw/zip_delete.c:38-68 | Deletion succeeds exactly for named live entries of a writable archive and keeps agreement. |
| `NameIndex.UnchangeAllKeeps` | libs/archive-rw/zip_unchange_all.c:40-56 | Afterwards every entry goes by its original name and the index agrees. |
| `NameIndex.AddFileKeeps` | libs/archive-rw/zip_file_replace.c:54-105 | Adding, with or without overwriting, keeps agreement, or fails and changes nothing. |
| `NameIndex.ReplaceKeeps` | libs/archive-rw/zip_file_replace.c:38-50 | Replacing keeps agreement if and only if the entry was not deleted. |
| `NameIndex.StepKeeps` | libs/archive-rw/zip_file_replace.c:54-105 | Any edit that fails leaves entries and index as they were, and one that succeeds keeps them in agreement if and only if it revives no deleted entry. |
| `NameIndex.RevivedIsLost` | libs/archive-rw/zip_unchange.c:46-93 | An archive of one entry, deleted and unchanged: the entry is there under its name and the name is not found. |
| `NameIndex.IndexAgrees` | libs/archive-rw/zip_name_locate.c:50-92 | After any run of sensible edits, looking up a name yields an index exactly if that entry goes by that name, in the current and the original view. |
| `NameIndex.EmptyNameStays` | libs/archive-rw/zip_set_name.c:98-122 | Renaming keeps agreement if and only if the old name is not empty. |
| `NameIndex.RegisteredFirst` | libs/archive-rw/zip_open.c:227-246 | A duplicate name is registered for its first entry only. |
| `NameIndex.OpenAgrees` | libs/archive-rw/zip_open.c:225-246 | A freshly opened archive is in agreement if and only if its names are distinct. |
| `SourceStack.Pool.Open` | libs/archive-rw/zip_source_open.c:37-75 | The open counts and callbacks after opening down the stack, failures at any level included. |
| `SourceStack.Pool.Close` | libs/archive-rw/zip_source_close.c:38-57 | The open counts and callbacks after closing down the stack. |
| `SourceStack.Pool.Free` | libs/archive-rw/zip_source_free.c:40-71 | The sources after dropping a reference, forced close and release of lower sources included. |
| `SourceStack.OpenBalances` | libs/archive-rw/zip_source_open.c:37-75 | A successful open adds exactly one to the account; a failed one at whatever level leaves every open count as it was. |
| `SourceStack.CloseBalances` | libs/archive-rw/zip_source_close.c:38-57 | Closing what a client opened gives back just that, down the stack. |
| `SourceStack.FreeBalances` | libs/archive-rw/zip_source_free.c:40-71 | Dropping a reference one holds keeps open and reference accounts balanced, all the way down. |
| `SourceStack.CloseOnlyOwn` | libs/archive-rw/zip_source_close.c:38-57 | Closing an open source leaves an account that can balance if and only if a client had it open itself. |
| `SourceStack.ForeignClose` | libs/archive-rw/zip_source_close.c:38-57 | Two concrete sources, one on the other: a close of the lower one by a client that had not opened it leaves the upper one open on a closed source. |
| `SourceStack.RunBalances` | libs/archive-rw/zip_source_open.c:37-75 | Over any stack and any run, each source is open as often as clients opened it plus once per open source layered on it, and OPEN and CLOSE callbacks alternate. |
| `SourceStack.NothingLeft` | libs/archive-rw/zip_source_free.c:40-71 | When clients have closed everything nothing is open, and when they have let go of everything nothing lives. |
| `Window.Windows.Seek` | libs/archive-rw/zip_source_seek.c:38-59 | A window seeks within its own bounds and touches no other source. |
| `Window.Windows.Tell` | libs/archive-rw/zip_source_window.c:229-230 | The position relative to the window. |
| `Window.Windows.Open` | libs/archive-rw/zip_source_open.c:37-75 | The state after opening, down to the bottom: a first open starts the window at its start, latches are cleared, nothing that is not below is touched, and what was sound below and above stays so. |
| `Window.Windows.Callback` | libs/archive-rw/zip_source_window.c:172-199 | State and result of the READ command: the next bytes of the window, wherever the source below was left, and if the slice has them as many as asked for or left, without any failure. |
| `Window.Windows.Read` | libs/archive-rw/zip_source_read.c:38-84 | State and result of a read: never a wrong byte; if the slice has them exactly as many of the next bytes as asked for or left; a refused read changes nothing; no window that lies within those below it is made to fail. |
| `Window.Windows.Do` | libs/archive-rw/zip_source_read.c:38-84 | Any one use leaves the state and the result of the step function. |
| `Window.Play` | libs/archive-rw/zip_source_read.c:38-84 | Any list of uses of new sources leaves the state and the results of the run function. |
| `Window.DeliversThrough` | libs/archive-rw/zip_source_window.c:172-199 | What the source below delivers at the window's place is what the window is to deliver. |
| `Window.NestedSize` | libs/archive-rw/zip_source_window.c:66-98 | Windows within each other stand for as many bytes as they span. |
| `Window.DeliveredLaw` | libs/archive-rw/zip_source_read.c:38-84 | A read delivers the next bytes of the slice, as many as asked for or left where the slice has them, and leaves every sound window sound. |
| `Window.FailsExactly` | libs/archive-rw/zip_source_read.c:63-77 | A read latches a failure in a window without one if and only if its slice has less than was asked for and is left of the window. |
| `Window.FailedServesNone` | libs/archive-rw/zip_source_read.c:51-53 | A source that has failed serves no window on top of it. |
| `Window.NestedIffNeverFails` | libs/archive-rw/zip_source_read.c:38-84 | A window lies within the sources below it if and only if no run of uses, of whatever sources, makes it or one below it fail. |
| `Window.OverreachPoisons` | libs/archive-rw/zip_source_window.c:172-199 | Two concrete windows on one that overreaches: reading the first makes a read of the second fail that lies well within it and would have delivered its byte. |
| `Window.WindowsDoNotInterfere` | libs/archive-rw/zip_source_window.c:119-236 | For any interleaving of opens, seeks and reads of any windows, a window that lies within those below it, and on which none of those used is layered, stands where it would if used alone, and each read of it delivers the next bytes of its slice. |
| `Window.DisturbedFromAbove` | libs/archive-rw/zip_source_window.c:179-189 | Uses of another source leave such a window where it stands alone, whatever they are, if and only if the other is not layered on it. |
| `Window.LayeredReadSkips` | libs/archive-rw/zip_source_window.c:179-189 | A concrete source with a window on it: a read of the window makes the next read of the source skip bytes. |
| `CrcSource.Crc.Read` | libs/archive-rw/zip_source_crc.c:91-132 | What was read, and the CRC state after it; with validation the end fails exactly if the claimed CRC or size is not that of the stream. |
| `CrcSource.Crc.Update` | libs/archive-rw/zip_source_crc.c:116-126 | The piecewise CRC is the CRC of the whole stretch. |
| `CrcSource.Crc.Seek` | libs/archive-rw/zip_source_crc.c:173-191 | The position follows the source below; the CRC is left alone. |
| `CrcSource.Crc.Stat` | libs/archive-rw/zip_source_crc.c:137-152 | Once complete, the size and CRC of the whole stream; before, nothing. |
| `CrcSource.StepIsRight` | libs/archive-rw/zip_source_crc.c:89-132 | Every use keeps the CRC that of a growing prefix, and the end completes it if and only if the prefix is the whole stream. |
| `CrcSource.CrcOfPrefix` | libs/archive-rw/zip_source_crc.c:80-191 | After any run of opens, reads and seeks the stored CRC is that of the first bytes of the stream, and once complete of all of it. |
| `CrcSource.StraightThrough` | libs/archive-rw/zip_source_crc.c:89-132 | Reading straight through in pieces of any sizes always completes the CRC at the end. |

## Left out

- The LLVM-facing libraries and tools: thin drivers over a library that is not part of this model.
- File sources, temporary files, permissions and renaming (zip_source_filep.c): input and output plumbing.
- inflate, deflate, PKWARE and AES encryption: an entry's layers are the bytes and figures they deliver in the end (`AddData.Payload`); so an entry of method 99 reads as an unsupported encryption.
- DirentReader.ReadDirent: an entry of method 99 with a valid AES field, which the code reads, is refused.
- CRC-32 itself: a function parameter, and in `CrcSource` a fold with an arbitrary step.
- localtime and mktime: the packed DOS date and time are the stored value.
- Allocation failure, array capacities and realloc, error strings, progress callbacks, deprecated entry points: they only add easy cases.
- `_zip_checkcons` and the choice among several end-record candidates: a heuristic; parsing starts at a given end record.
- Reading a directory that lies outside the last 64 KiB through the source again: the whole file is in the buffer.
- Close.Archive.Close: that a commit itself fails is not modelled, and its output is one byte string with a position; that a memory source behaves as one is what `MemorySource` proves.
- Close.Archive.PlaceEntry: which of the failing entry's own fields a failed write has already changed is not stated; what becomes of the entries before it is.
- CloseRoundTrip.CloseThenReopen: assumes, as the format must, that the 20 bytes before a plain end record do not look like a Zip64 locator.
- Recompressing an entry's old data for a changed method: what that delivers is a parameter.
- ExtraField.FieldList.DeleteEvery: the count of fields is bounded by the 65536 values of the index, as the code's sixteen-bit index is.
- FragmentBuffer.Buffer.Seek: a seek that would succeed needs at least one fragment, since the search on a buffer without any reads outside its table.
- MemorySource.Source.Seek: the same of the reader's buffer.
- MemorySource.Source.SeekWrite: the same of the pending output.
- FragmentBuffer.Buffer.Of: takes fragments none of which is empty; `FragmentBuffer.TableIsRight` says why.
- Overflow of signed 64-bit seek arithmetic before its range check: sums are exact.
- NameHash.Table.Resize: chains are sequences, so the links between entries and their reuse in place are not captured.
- NameIndex.Archive.Rename: needs non-empty names, since the code looks at the character before the first one of an empty name.
- Names that are converted from CP437 for the index, and case-insensitive or directory-less lookup: an entry's name is the string the index is given.
- The consistency flag where it makes a duplicate name an error on opening, and its last test that the directory's bytes are used up, which cannot fail with all of them in the buffer.
- Window.Windows.Open: a window's bounds are known from the start, while the code adds the data offset of an archive entry at the first open.
- Sources that cannot seek, and the list of open sources an archive keeps to invalidate them.
- Sources closed from outside by discarding their archive.
