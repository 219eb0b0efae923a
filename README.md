# python-media-streamer: a verified model of the playlist, probe, segment and library logic

The media streamer serves a video library over HTTP and plays files through
HTTP Live Streaming (RFC 8216). This project models its two core files in
Dafny and proves what they promise.

- **ffmpeg.py**
  - `generate_manifest` is modelled as the pure function
    `Manifest.GenerateManifest` over a duration in integer microseconds and a
    segment length in whole seconds. It renders the seven header tags, one
    `#EXTINF` + URI entry per segment with `#EXT-X-DISCONTINUITY` before every
    entry but the first, and `#EXT-X-ENDLIST`, joined with newlines.
  - Every `{:0.6f}` number is the fixed-point function `Decimal.Fixed6`, proved
    to read back and to be injective.
  - The playlist is proved line by line through the splitting of the text at
    newlines (`Text.SplitJoin`).
  - The post-processing of `probe` is `Probe.ProbeStreams`. It works on an
    already-decoded ffprobe answer: the stream-count check, the duration, a
    stable sort by stream index, and the loop `Probe.Classify` into video and
    audio summaries.
  - The control logic of the `get_segment` generator is the method
    `Segments.GetSegment`. It runs against a `Script` of the answers that
    `poll()`, `stdout.read()`, the consumer and `wait()` give. It has two parts:
    - the read loop, `Segments.ReadLoop`;
    - the cancel and exit-status handling, `Segments.Cleanup`: SIGINT, a 4 s
      wait, a kill on timeout, `been_killed`, the final 1 s wait, and
      `CalledProcessError`.
    - A script determines the whole run (`Segments.RunsDeterministic`), so
      the contract of `GetSegment` says what the generator does for each
      script.
- **vfs.py**
  - `_get_sortkey` is `SortKeys.SortKeyOf`. It rotates a leading article, drops
    a file's extension and pairs the name with `is_file`. The order on keys is
    proved strict and total, with folders first.
  - `vfs_Object` and its subclasses are one class, `Vfs.VfsObject`, with a
    `kind` field (File, Video, Image, Folder). It covers:
    - the path normalisation of `__init__`;
    - the lazily cached `mimetype` and `sortkey`;
    - `_get_file`'s dispatch on the MIME type.
  - A Folder's `__iter__` (`Vfs.VfsObject.Iter`) scans the entries into the
    groups table (`Vfs.ScanEntries`, specified by the pure `Vfs.Tabulate`) and
    sorts the keys.
  - `__next__` (`Vfs.VfsObject.Next`) advances `index` and resolves the group
    under the key into objects. The pure `Vfs.Resolve` says what a group
    becomes. `Vfs.Expected` says which objects and preview links a caller then
    observes.
  - libmagic is a function parameter from a path to a MIME text. A directory
    listing is a sequence of `Entry(name, node)` in scan order.

Two behaviours of the source that follow from its code are proved as
stated:
- `Vfs.SiblingOfRoot`: a path that merely starts with the text of the media
  root, such as `/srv/media/Videos/a`, is treated as lying under it, with
  relative path `s/a`.
- `Vfs.RotatedFoldersClash`: the folders "The Matrix" and "Matrix, The" get
  the same sort key. Their group then trips the "Directories shouldn't have
  extensions" assertion.

Where the code's stated intent and its behaviour differ, the model follows the code.
- The assertion message at ffmpeg.py:34 says that multiple audio or video
  tracks are unsupported. The assertion itself only bounds the total count
  at 2, so two video streams are accepted. `Probe.ProbeStreams` does the same.
- In an HLS media playlist (RFC 8216, section 4.3.2.1) each `#EXTINF` declares
  the duration of its segment, and the segments follow one another in
  playback time. For the last entry, the code writes the offset and length
  described under "## Findings". `Manifest.GenerateManifest` is the code as
  written, and `Manifest.Plan` is the contiguous layout.

Files:
- `wrappers.dfy`: Option, Result.
- `text.dfy`: `'\n'.join` and `split('\n')`.
- `decimal.dfy`: integer and `{:0.6f}` rendering and parsing.
- `manifest.dfy`: the playlist.
- `probe.dfy`: the probe post-processing.
- `segment.dfy`: the get_segment state machine.
- `sortkey.dfy`: the sort keys and their order.
- `vfs.dfy`: paths, objects and folder listing.

## Model

| member | source | states |
|---|---|---|
| Decimal.NatToString | ffmpeg.py:94 | the index is rendered as digits with no leading zero whose value is the index |
| Decimal.Fixed6Shape | ffmpeg.py:93-94 | `{:0.6f}` text has a minus sign exactly for negative values, a point, and exactly six digits after it |
| Decimal.Fixed6RoundTrip | ffmpeg.py:93-94 | reading a `{:0.6f}` text back gives the microsecond value it was rendered from |
| Decimal.Fixed6Injective | ffmpeg.py:93-94 | two different values never render to the same `{:0.6f}` text |
| Decimal.IntRoundTrip | ffmpeg.py:91 | `"{}".format` of an int reads back as that int |
| Text.SplitJoin | ffmpeg.py:102 | splitting `'\n'.join(lines)` at newlines gives back the lines when none of them holds a newline |
| Manifest.CeilDiv | ffmpeg.py:82 | `math.ceil(a / b)`: the least q with a <= q*b for positive b, mirrored for negative b |
| Manifest.SegmentCount | ffmpeg.py:82 | for a positive segment length: no entries exactly when the duration is <= 0, otherwise (n-1)*L < duration <= n*L |
| Manifest.GenerateManifest | ffmpeg.py:80-102 | fails (ZeroDivisionError) exactly when the segment length is 0 |
| Manifest.WrittenSegments | ffmpeg.py:92-100 | one entry per segment, entry i carrying index i |
| Manifest.WrittenSegmentAt | ffmpeg.py:94-99 | entry i is (index i, the offset rule for i, length segment_length) |
| Manifest.InteriorOffsets | ffmpeg.py:99 | entries other than the first and the last are requested at segment_length * i |
| Manifest.LastOffsetIsRemainder | ffmpeg.py:98 | with at least two entries, the last offset is what remains of the duration (0 < offset <= L); with at least three, it is not later than the previous entry's offset |
| Manifest.ManifestFrame | ffmpeg.py:83-102 | the playlist is the seven header lines, then 3n-1 entry lines, then `#EXT-X-ENDLIST` last; it holds exactly n `#EXTINF` lines |
| Manifest.ManifestEntries | ffmpeg.py:92-100 | line 7+3i is `#EXTINF:<L>,`, the next line is entry i's URI with its index, offset and length, and a discontinuity precedes it exactly when i != 0 |
| Manifest.TargetDurationCoversEntries | ffmpeg.py:90-91 | the target-duration line reads back as segment_length + 1, and every `#EXTINF` reads back as segment_length, strictly below it |
| Manifest.TargetLineReadsBack | ffmpeg.py:91 | the `#EXT-X-TARGETDURATION` line reads back as segment_length + 1 |
| Manifest.ExtInfReadsBack | ffmpeg.py:93 | an `#EXTINF` line reads back as the duration it was rendered from |
| Manifest.WrittenVersusPlanned | ffmpeg.py:97-99 | the written entries agree with the contiguous plan except the last, whose written offset is the plan's last length |
| Manifest.WrittenLastOffsetCounterexample | ffmpeg.py:98 | 25 s in 10 s entries: the third entry is written at offset 5 s with length 10 s, where the plan has 20 s and 5 s |
| Manifest.Plan | ffmpeg.py:92-100 | the contiguous layout: as many entries as the written playlist, entry i carrying index i |
| Manifest.PlanContiguous | ffmpeg.py:97-99 | planned entries start at 0, each starts where the previous ends, each is at most segment_length long, and they cover exactly the duration |
| Manifest.PlannedManifestLayout | ffmpeg.py:92-102 | the playlist rendered from the plan declares each entry's own length and URI, and ends with `#EXT-X-ENDLIST` |
| Manifest.DeclaredEntries | ffmpeg.py:92-102 | for any indexed entries, the rendered playlist holds one `#EXTINF` per entry, declaring that entry's length, followed by its URI |
| Probe.FrameRateRoundTrip | ffmpeg.py:45 | `r_frame_rate` "num/den" with den != 0 splits at the '/' back into the fraction num/den |
| Probe.ZeroDenominatorRefused | ffmpeg.py:45 | a zero denominator is refused (ZeroDivisionError) |
| Probe.SortByIndexCorrect | ffmpeg.py:43 | `sorted(..., key=index)` gives the streams in index order, as a permutation of the input |
| Probe.SortByIndexKeepsSorted | ffmpeg.py:43 | streams already in index order stay as they are |
| Probe.InsertKeepsOrder | ffmpeg.py:43 | inserting a stream puts it after every stream of the same index already placed |
| Probe.SortByIndexStable | ffmpeg.py:43 | the sort is stable: the streams sharing an index come out in their input order |
| Probe.Classify | ffmpeg.py:43-59 | the loop succeeds exactly when no stream has a problem; it stops at the first problem in list order; on success it returns the video and audio summaries of the list |
| Probe.EveryStreamClassified | ffmpeg.py:44-59 | without problems every stream lands in exactly one list (video or audio) |
| Probe.AudiosAreAudioStreams | ffmpeg.py:48-57 | audio summary i is the i-th audio stream's codec and channels, its language '' when the tags or the language tag are missing |
| Probe.VideosAreVideoStreams | ffmpeg.py:44-47 | video summary i is the i-th video stream's codec and its frame rate as a fraction with a non-zero denominator |
| Probe.ProbeStreams | ffmpeg.py:34-61 | more than two streams fails first, then a missing duration; otherwise the result is Ok exactly when no stream has a problem, the error being the first problem in index order, and the result being the container and the two lists |
| Probe.ProbeResultOrdered | ffmpeg.py:35-61 | a successful probe has the container's format and duration, one summary per stream, and each list in ascending stream index |
| Segments.ReadLoop | ffmpeg.py:133-144 | the loop reads only while poll() is None; the yielded chunks are exactly the non-empty reads, in order; it stops at the exit, the empty read or the consumer's close (one iff per stop reason); every round before the last went on, and the last is the first round whose answer ends the loop |
| Segments.GoesOnPast | ffmpeg.py:133-144 | a round that later rounds followed polled None, read no end of data and, after a yield, was asked for more, so it did not end the loop |
| Segments.StoppedDeterministic | ffmpeg.py:133-144 | only one round can end the loop, and it ends it in one way |
| Segments.ExplainsDeterministic | ffmpeg.py:133-144 | the script determines the loop's yields, stop reason and answers consumed: at most one loop end explains it |
| Segments.Cleanup | ffmpeg.py:145-179 | on cancel: SIGINT, then the 4 s wait, a kill exactly when that wait timed out, then been_killed; the final 1 s wait; which waits are made for each stop reason, the final status being the known exit code or the answer to the last wait, and a timeout that answer being None; the whole action list (SIGINT, the 4 s wait and a kill when it timed out, then the 1 s wait); TimeoutExpired when both waits of a close time out; the error with return code and stderr exactly when the status is non-zero and the process was not killed |
| Segments.ReapedDeterministic | ffmpeg.py:145-179 | the waits' answers, the stop reason and the exit code determine the actions, been_killed, the status, the outcome and the waits made |
| Segments.GetSegment | ffmpeg.py:129-179 | the whole generator: the script's answers explain the loop's yields and its stop exactly as for the read loop, and the clean-up after it ends as Cleanup says for the script's waits and the exit code poll() gave |
| Segments.RanOut | ffmpeg.py:133-144 | a loop that ran out of script, with nothing done after it, is a whole run |
| Segments.CleanedUp | ffmpeg.py:133-179 | a loop that stopped, followed by its clean-up, is a whole run |
| Segments.RunsDeterministic | ffmpeg.py:129-179 | a script determines the whole run: yields, actions on the process and outcome |
| Segments.ExitedBeforeReading | ffmpeg.py:133-179 | a process found exited with code 3 at the first poll: nothing read, only the 1 s wait, and CalledProcessError(3) with its stderr |
| Segments.EndedAfterIdleRead | ffmpeg.py:133-179 | an idle read, then the empty read: the loop ends after two reads, and a final status 1 is reported as CalledProcessError |
| Segments.ClosedThenTimedOut | ffmpeg.py:143-167 | a close after one yield whose 4 s and 1 s waits both time out: SIGINT, the 4 s wait, a kill, the 1 s wait, then TimeoutExpired |
| SortKeys.NoWordNoKey | vfs.py:250 | a name without a word has no key (`split()[0]` raises IndexError) |
| SortKeys.FirstWordOf | vfs.py:250 | the first word of "w rest" is w, for w without whitespace |
| SortKeys.ArticleSpellings | vfs.py:251 | "The", "THE", "An", "A" and "a" are articles; "Then" and "" are not |
| SortKeys.ArticleMovesToEnd | vfs.py:250-255 | a folder "<Article> rest" gets the key name "rest, <Article>", the article keeping its case |
| SortKeys.OtherNamesKept | vfs.py:250-271 | a name whose first word is not an article keeps its text, minus the extension for a file |
| SortKeys.StripExtSplits | vfs.py:267 | `rsplit('.', 1)[0]` removes the last '.' and what follows it, and nothing when there is no '.' |
| SortKeys.FileKeyDropsExtension | vfs.py:266-267 | a file "base.ext" is keyed by "base" |
| SortKeys.FolderKeyKeepsDots | vfs.py:266-271 | a folder keeps the dots of its name |
| SortKeys.FoldersFirst | vfs.py:269-271 | every folder key orders before every file key |
| SortKeys.KeyLessStrictTotal | vfs.py:269-271 | the order on (is_file, name) keys is irreflexive, transitive, total and asymmetric |
| SortKeys.SortKeyListSorted | vfs.py:167 | sorting distinct keys gives them strictly increasing, as a permutation |
| Vfs.RelPathUnderRoot | vfs.py:54-56 | a path under the media root has as relative path what follows the root and its separators, and is its own full path |
| Vfs.RelPathOutsideRoot | vfs.py:57-59 | a relative path outside the root is its own relative path and is joined to the root; normalising again changes nothing; local_uri is "file:" + full path |
| Vfs.AbsolutePathOutsideRoot | vfs.py:57-59 | an absolute path outside the root is its own relative and full path |
| Vfs.SiblingOfRoot | vfs.py:54-55 | "/srv/media/Videos/a" is treated as under the root "/srv/media/Video", with relative path "s/a" |
| Vfs.NameIsLastComponent | vfs.py:69-70 | the name is the last component, however many separators end the path |
| Vfs.TrailingSeparatorName | vfs.py:69-70 | "foo/bar/" is named "bar" |
| Vfs.NameHasNoSeparator | vfs.py:70 | no name holds a separator |
| Vfs.EntryObjectName | vfs.py:54-91 | an object made for an entry of a folder under the root is named like the entry, and is hidden exactly when the entry's name starts with '.' |
| Vfs.OpenCheckSucceeds | vfs.py:61-67 | an object opens exactly when its path names a node of its own sort; a missing node reports "No such file or directory" first |
| Vfs.FileKindOfMime | vfs.py:219-226 | "type/subtype" gives Video for type "video", Image for "image", File otherwise |
| Vfs.FileKindWithoutSlash | vfs.py:220 | a MIME text without '/' is its own category, and never gives a Folder |
| Vfs.VfsObject.constructor | vfs.py:50-72 | relpath, fullpath and name by the normalisation; the given MIME type and key; an Image is its own preview |
| Vfs.VfsObject.GetMimetype | vfs.py:93-97 | libmagic is asked only while the cached MIME type is empty; afterwards the cached value is returned unchanged |
| Vfs.VfsObject.GetSortKey | vfs.py:99-103 | the key is computed from the name only while none is cached; afterwards the cached key is returned unchanged |
| Vfs.VfsObject.GetFile | vfs.py:216-226 | a fresh object of the kind the MIME type gives, carrying that MIME type, the key and the path's names; an Image is its own preview |
| Vfs.FirstBlankIs | vfs.py:161-162 | FirstBlank is the position of the first listed entry without a key (where `_get_sortkey` raises), or the length |
| Vfs.ScanEntries | vfs.py:158-166 | the loop's groups and key list are the table of the listed entries before the first blank one |
| Vfs.TabulateKeys | vfs.py:163-166 | the key list holds each key once, and exactly the keys of the groups |
| Vfs.FirstWithShape | vfs.py:161-164 | the first listed entry with a key carries it, and no listed entry before it does |
| Vfs.TabulateFirstSeen | vfs.py:163-166 | a key has a group exactly when some listed entry carries it, and the key list is in first-seen order |
| Vfs.TabulateMembers | vfs.py:161-166 | the group of a key is exactly the listed entries with that key, in scan order; hidden and special entries are in no group |
| Vfs.MembersShareSort | vfs.py:161-166 | a file key groups only files and a folder key only directories |
| Vfs.ListingOrder | vfs.py:167 | after the sort, the keys are strictly increasing, each group's key exactly once |
| Vfs.VfsObject.Iter | vfs.py:152-168 | `__iter__` resets the index and fills the groups and the sorted key list, which is strictly sorted and without repeats; a blank name stops it with that name |
| Vfs.LastOfKind | vfs.py:187-193 | the entry kept for a kind is a member of the group and has that kind |
| Vfs.LastOfKindStep | vfs.py:190-193 | one more entry is the last of a kind exactly when it has that kind |
| Vfs.LastOfKindNone | vfs.py:185-199 | nothing is kept for a kind exactly when no entry of the group has that kind |
| Vfs.LastOfKindAt | vfs.py:187-193 | an entry of the kind that no later entry shares is the one kept |
| Vfs.VfsObject.PickFiles | vfs.py:185-198 | the loop over a group fails exactly when the group holds a directory; otherwise it keeps the last Video and the last Image |
| Vfs.VfsObject.Present | vfs.py:199-212 | neither file: skipped; one: that object; both: the video with the image as its preview |
| Vfs.VfsObject.ResolveLone | vfs.py:176-182 | a lone directory gives a Folder, a lone file `_get_file`'s object |
| Vfs.VfsObject.ResolveSeveral | vfs.py:183-212 | several entries give the assertion for a directory among them, else what the last video and image make |
| Vfs.VfsObject.ResolveGroup | vfs.py:176-212 | the objects made for a group are what `Resolve` says, skipped exactly when it says Skip |
| Vfs.FileGroupsResolve | vfs.py:188 | a group of several entries under a file key never trips the directory assertion |
| Vfs.RotatedFoldersClash | vfs.py:183-188 | the folders "The Matrix" and "Matrix, The" share a key, and their group trips the assertion |
| Vfs.VfsObject.NextIndexFinds | vfs.py:199-201 | the search stops at the first group from the position that does not resolve to Skip, and passes only groups that do |
| Vfs.VfsObject.NextIndexAt | vfs.py:199-201 | from a Skip group the search goes on at the next position; from any other it stops there |
| Vfs.VfsObject.Next | vfs.py:170-214 | StopIteration exactly when no group from the index on resolves to something; otherwise the index moves past the first such group, and the result is that group's objects |

## Left out

- The processes themselves (`subprocess.run`/`Popen`, the ffmpeg and ffprobe argument lists, `fcntl` non-blocking mode, signals, timeouts) are replaced by the answers of `Probe.ProbeOutput` and `Segments.Script`.
- JSON decoding of the ffprobe output (ffmpeg.py:27-33) is replaced by an already-decoded `ProbeOutput`.
- `print` calls (ffmpeg.py:60, ffmpeg.py:141, ffmpeg.py:146, ffmpeg.py:172, vfs.py:181) have no effect on results and are not modelled.
- Probe.ProbeStreams: `float(duration)` is not modelled; the duration arrives as whole microseconds, or None when the field is missing or unreadable.
- Probe.ParseFrameRate: accepts only the canonical `<digits>/<digits>` spelling with an optional '-' on each part; the other spellings Python's `int()` accepts (a '+' sign, surrounding whitespace, '_' between digits) are refused. ffprobe writes the canonical form.
- Probe.ProbeStreams: the `streams` list and `format_name` (ffmpeg.py:34-35) and each stream's `codec_type`, `codec_name`, `channels` and `r_frame_rate` (ffmpeg.py:44-53) are always present in the decoded output, so the KeyError raised when one of them is missing is not modelled.
- Probe.VideosAreVideoStreams: fps is kept as the integer fraction that `operator.truediv` would divide; the floating-point quotient is not computed.
- Probe.SortByIndex: every stream carries an integer index; the TypeError Python raises when comparing a missing index (`d.get('index')` giving None) is not modelled.
- Manifest.GenerateManifest: the segment length is a whole number of seconds and the duration whole microseconds; float rounding of `{:0.6f}` does not arise and is not modelled.
- Segments.GetSegment: a consumer can only close the generator right after a yield, which is where Python delivers GeneratorExit; exceptions from `read()` and the bytes of stderr decoding are not modelled.
- Python's recursion limit on `__next__` skipping many groups in a row is not modelled.
- Vfs.VfsObject.constructor: does not raise the FileNotFoundError checks of vfs.py:61-67. Those checks are the separate function `OpenCheck` (see `Vfs.OpenCheckSucceeds`). The objects `__next__` makes come from entries just listed as files or directories, and races with the filesystem are not modelled.
- The `NotImplementedError` for constructing the base class directly (vfs.py:51-52) has no counterpart, because the model's kinds are only File, Video, Image and Folder.
- The preview search of `Folder.__init__` (vfs.py:140-149) is not part of this model, since it only probes the filesystem for fixed file names.
- `Folder.__getitem__` (vfs.py:228-241), `__repr__` (vfs.py:45-48) and `Image.get_thumbnail` (vfs.py:124-134, PIL and base64) are not part of this model.
- libmagic (`magic_db`, vfs.py:16-34) is a function parameter from a path to a MIME text; its flags are not modelled.
- `os.path.join`, `os.path.abspath` and `os.path.basename` are '/'-based string operations. The root "/srv/media/Video" is already absolute, so `abspath` is the identity on it.
- SortKeys.SortKeyOf: `lower()` is modelled on ASCII letters only, which decides the comparison with "the", "an" and "a" for every name. `split()` separates at Python's whitespace characters as listed in sortkey.dfy.
- Vfs.VfsObject.ResolveSeveral: the source calls `_get_file` for every file of a group and drops the objects a later Video or Image replaces. The model asks libmagic about every file but creates objects only for the kept ones, so it does not capture the allocation of the dropped ones.
- The "Reaching this point should be impossible" exception (vfs.py:214) cannot be reached, and the model has no path to it.
- main.py, test.py and the static JavaScript files are not part of this model. The continuous-session functions that main.py calls are absent from ffmpeg.py.

## Findings

| source | as written | input that shows it | evidently intended | confidence | as-written member | corrected member |
|---|---|---|---|---|---|---|
| ffmpeg.py:97-99 | the last entry's URI offset is `duration - segment_length*i`, and its `#EXTINF` and `length` are `segment_length` (ffmpeg.py:95) | duration 25 s, segment_length 10 s: the third entry is requested at offset 5 s with length 10 s | the last entry starts at `segment_length*i` (20 s) and lasts what remains (5 s), so the entries are contiguous and cover the duration | high, not executed | Manifest.WrittenLastOffsetCounterexample | Manifest.PlanContiguous |
