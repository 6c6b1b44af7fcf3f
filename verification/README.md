# TUInventory core in Dafny

TUInventory is a small inventory application. It has a Qt user interface, a
barcode and QR reader, a typed configuration file and some helper threads.
This project models the parts of it that are sequential logic, and proves
properties of them. Qt, the database and the camera become plain values and
traces.

- **Barcode handling** (`barcodereader.py` and the documentation example of
  `find_and_mark_barcodes`):
  - rectangle conversion;
  - per-frame de-duplication of `(type, payload)` pairs;
  - the marks drawn onto a frame and the label text;
  - the request/answer discipline of `LazyVideoStream`;
  - the batching of `VideoStream.run`;
  - the open/busy-wait/release lifecycle of `Camera`.

  The decoder is an input: a sequence of `(type, payload, rect, polygon)`
  records per frame.
- **Typed configuration** (`config.py`): key conversion, the
  `"<class 'T'> v"` encoding and its parser. The store is a map of maps.
- **Phone numbers** (`telephoneregex.py`):
  - a matcher for the pattern at line 21 that follows Python's backtracking
    order;
  - the four extraction helpers, `_whitespacekiller` and `__str__`.
- **User rows** (`adapters.py`, with the `User` constructor of `classes.py`).
- **QR codes** (`qr_generator.py`): the payload text and the file-type rule.
- **UI logic** (`ui.py`):
  - the tab state;
  - the location → user → device tree;
  - the `"uid name"` user combobox and how the device form reads it back;
  - the empty-field guards;
  - the producer filter of the article combobox;
  - the login/logout/mouse timeout lifecycle.
- **Instantiation guards and the print queue** (`utils.py`, `test.py`,
  `meta_printer.py`):
  - `absolute_path`;
  - `_ParallelPrint`'s `_created` flag;
  - the `Singleton` metaclass counter, with threshold 1 and with threshold 2;
  - the FIFO print queue.

Shared helpers model the Python built-ins the code relies on:

- `wrappers.dfy`: `Option` and `Result`.
- `pytext.dfy`: `str(int)`, `int(str)`, `str.split`, `str.lower`, `str.strip`,
  string ordering, and the part of a string a regex `.` can match.
- `sorting.dfy`: `list.sort(key=...)` with string keys.

## Model

| member | source | states |
|---|---|---|
| Camera.CaptureIndexInjective | TUInventory/barcodereader.py:250-253 | On one platform, distinct camera ids open distinct capture devices. The id is the device index less the DirectShow offset 700 on a platform whose name contains `win32`, and the index itself elsewhere |
| Camera.FirstGoodRead | TUInventory/barcodereader.py:257-258 | The busy-wait ends exactly when some `read()` succeeds, right after the first successful read and no earlier |
| Camera.WithCamera | TUInventory/barcodereader.py:249-261 | One capture object per `with` block, opened on the platform's capture index for the camera id. An unopened device raises `IOError` with the camera id, without running the body or releasing. The block blocks iff no read succeeds. The body runs iff the device is open and some read succeeds. It is released once exactly when the body ran, even when the body raises. The block completes iff the body ran and did not raise |
| Barcodes.RectTransformation | TUInventory/barcodereader.py:79-90 | The first corner is the origin; the second corner minus the first is `(width, height)` |
| Barcodes.RectRoundTrip | TUInventory/barcodereader.py:183-196 | Converting the two corners back to origin plus size gives the original rectangle |
| Barcodes.CornersRoundTrip | TUInventory/barcodereader.py:183-196 | Every pair of corners is the conversion of the rectangle read back from it |
| Barcodes.FoundCodes | TUInventory/barcodereader.py:99-104 | The collected pairs are exactly the decoded pairs, and there are never more of them than decoded pairs |
| Barcodes.FoundCodesInOrder | TUInventory/barcodereader.py:101-104 | The collected pairs contain no duplicate and are ordered by their first occurrence in the decoder output |
| Barcodes.FindAndMarkBarcodes | TUInventory/barcodereader.py:92-119 | The loop returns the frame with the marks of every record appended in decoder order. It also returns the found pairs: distinct, each decoded pair present, ordered by first detection, no more than the records |
| Barcodes.FoundCodesOfRecords | TUInventory/Documentation/Beispielprogramme/barcodereader.py:8-13 | In terms of decoder records: a pair is collected iff some record has it; collected pairs are distinct, in first-detection order, and at most one per record |
| Barcodes.LabelRoundTrip | TUInventory/Documentation/Beispielprogramme/barcodereader.py:20-23 | The label `type(payload)` determines the pair when the type contains no `(` |
| Barcodes.FullMarksPlacement | TUInventory/Documentation/Beispielprogramme/barcodereader.py:14-27 | Each record gets its polygon, a rectangle whose size is the record's, and a label 10 pixels above the rectangle's origin that reads back as the record's pair |
| VideoStreams.NewLazy | TUInventory/barcodereader.py:152-162 | The constructor opens and releases the camera once, on the capture index for its camera id. A device that does not open raises `IOError` from the constructor. A constructed stream has no requests, no answers and `mirror` off |
| VideoStreams.ServeRequest | TUInventory/barcodereader.py:232-243 | One taken request gives exactly one answer, numbered after the previous ones, and one `task_done`. The answer holds the captured frame with polylines drawn and the distinct found pairs in first-detection order. `self.frame` becomes the marked frame at the current target resolution |
| VideoStreams.LazyTraceValid | TUInventory/barcodereader.py:228-243 | Over any trace: requests count the `request()` calls; answers only grow, are in request order, one per taken request, with one `task_done` each, never more than the requests |
| VideoStreams.MirrorNeverConsulted | TUInventory/barcodereader.py:164-181 | Setting `mirror` at any time changes nothing observable: the same run without any mirror assignment, from any initial mirror value, gives the same requests, answers, `task_done` count, frame and resolution |
| VideoStreams.SettingsDoNotChangeAnswers | TUInventory/barcodereader.py:237-242 | The items put on `frame_queue` do not depend on `mirror` or `target_resolution`: a trace with every setting removed, from any settings, gives the same answers |
| VideoStreams.FrameDoesNotChangeAnswers | TUInventory/barcodereader.py:241-242 | `self.frame` is written but never read by `run()`: its value does not influence any answer |
| VideoStreams.FrameShowsLastPass | TUInventory/barcodereader.py:121-126 | After any trace, the `frame` getter shows the frame captured in the last loop pass, with all of its barcodes marked. Without any pass it shows the initial frame |
| VideoStreams.EagerStep | TUInventory/barcodereader.py:121-128 | A running stream that has not seen `abort` appends one batch per frame with at least one record. That batch is the non-empty list of pairs found in the frame. A stopped stream never appends. Nothing else is ever appended. A pass stores the captured frame with every barcode marked; any other event leaves the stored frame alone |
| VideoStreams.EagerTraceValid | TUInventory/barcodereader.py:121-128 | Over any trace the batches only grow. Each batch is non-empty and duplicate-free, with at most one batch per loop pass. A stopped stream keeps its batches unchanged |
| Config.KeyConv | TUInventory/config.py:16-23 | A plain key goes to section `main`. A tuple key is unpacked into section and key, and unpacking fails unless it has exactly two items |
| Config.Serialize | TUInventory/config.py:41 | The stored text is `<class '` followed by the type name, `'> ` and `str(value)` |
| Config.MatchTyped | TUInventory/config.py:28-30 | The match succeeds iff the text starts with `<class '` and the rest of its first line contains `'> `. The greedy type group ends at the last `'> `, and the value group is the rest of the first line |
| Config.SetItem | TUInventory/config.py:39-46 | Setting succeeds iff the key converts. The serialised value is stored under the converted section and key, and a missing section is created. Every other entry is unchanged |
| Config.Get | TUInventory/config.py:37 | Reading succeeds iff section and option exist and gives the stored text; a missing section raises `NoSectionError` |
| Config.IntRoundTrip | TUInventory/config.py:25-33 | A stored integer is parsed back to the same integer |
| Config.StrRoundTrip | TUInventory/config.py:25-33 | A stored string without line break and without `'> ` is read back unchanged |
| Config.StrWithLineBreakIsTruncated | TUInventory/config.py:28-33 | A stored string with a line break reads back as its first line only |
| Config.BoolReadsTrue | TUInventory/config.py:31-33 | As written, every stored boolean reads back as `True` |
| Config.StoredFalseReadsTrue | TUInventory/config.py:31-46 | As written, reading a missing key fails, and setting `False` and reading it back yields `True` |
| Config.IntendedRoundTrip | TUInventory/config.py:25-33 | With the guard comparing the type's name, integers, both booleans and one-line strings without `'> ` read back unchanged |
| Config.SetThenGet | TUInventory/config.py:35-46 | Reading a key right after setting it returns integers and such strings unchanged, while booleans come back as `True`; with the corrected guard every such value comes back unchanged |
| Config.UntypedTextRaises | TUInventory/config.py:28-29 | Stored text without the `<class '` prefix cannot be read: the match is `None` and `__getitem__` raises |
| Phone.MatchPhone | TUInventory/telephoneregex.py:21-22 | The pattern matches at the start iff the optional prefix group matches or the text starts with a digit. Every match has well-formed groups: 2 is `0` or `+` with one to three digits, 5 is a run of `[1-9]`, 6 is digits with at most one trailing space, 7 is `-` with digits |
| Phone.Repetitions | TUInventory/telephoneregex.py:21 | Group 6 is only the last repetition of `(\d+ ?)`. The run from its start holds digits and single spaces after digits, and it ends where it cannot be extended. Group 6 is one whole repetition that ends at the run's end |
| Phone.SubscriberRunUnique | TUInventory/telephoneregex.py:21 | The run of `(\d+ ?)+` from a given place has one end, and its last repetition is determined |
| Phone.AreaAfterFits | TUInventory/telephoneregex.py:21 | The part ` ?([1-9]+) ` after group 2 is accepted iff it fits with a digit after it. Group 5 is then the text between the optional space and the closing space |
| Phone.PlusPrefixLongest | TUInventory/telephoneregex.py:21 | `\+\d{1,3}` backtracks from the most digits down. It succeeds iff some length lets the rest of group 1 fit, and then takes the longest such length |
| Phone.PrefixLongest | TUInventory/telephoneregex.py:21 | Group 1 is taken iff it fits at the start of the text, with the longest group 2 that lets it fit. Groups 2 and 5 are the text at their places |
| Phone.ExtensionAtIsExtension | TUInventory/telephoneregex.py:21 | Any well-formed group 7 at the end of group 6 is the one `(-\d+)?` reads there: `-` with the whole digit run after it. It is skipped only when no `-` with a digit follows |
| Phone.MatchPhoneSpec | TUInventory/telephoneregex.py:21-22 | The text matches iff it starts with a digit or group 1 fits. Then group 1 is taken whenever it fits, with the longest group 2. Group 6 is the last repetition of the run after group 1, and group 7 is read at that run's end |
| Phone.MatchedAtUnique | TUInventory/telephoneregex.py:21-22 | The conditions `MatchPhoneSpec` states fix every group: two well-formed matches that meet them are equal |
| Phone.WhitespaceKiller | TUInventory/telephoneregex.py:27-29 | The result consists of digits only and is never longer than the input |
| Phone.WhitespaceKillerConcat | TUInventory/telephoneregex.py:27-29 | Removing non-digits distributes over concatenation |
| Phone.WhitespaceKillerKeepsDigits | TUInventory/telephoneregex.py:27-29 | A string of digits is left unchanged |
| Phone.WhitespaceKillerDropsNonDigits | TUInventory/telephoneregex.py:27-29 | A string without digits becomes empty |
| Phone.WhitespaceKillerIdempotent | TUInventory/telephoneregex.py:27-29 | Applying it twice is the same as applying it once |
| Phone.ExtractCountryCode | TUInventory/telephoneregex.py:30-35 | A missing group 2 raises. A `+` prefix gives its digits, and `0` gives the default `049` |
| Phone.ExtractAreaCode | TUInventory/telephoneregex.py:36-38 | The digits of group 5, or the default `9321` when group 5 did not take part |
| Phone.ExtractSubscriberNumber | TUInventory/telephoneregex.py:39-41 | Group 6 without its trailing space, never empty |
| Phone.ExtractExtension | TUInventory/telephoneregex.py:42-44 | A missing group 7 raises; otherwise the digits after `-` |
| Phone.NewPhoneNumber | TUInventory/telephoneregex.py:14-26 | No match raises at the first extraction. A match without group 2 raises in the country code. Construction succeeds iff there is a match with groups 2 and 7. The number then holds the digits after `+` (or `049` after `0`), group 5, group 6 without its trailing space and the digits after `-` |
| Phone.NumberPrintsBack | TUInventory/telephoneregex.py:14-26 | Every constructed number, printed with the intended `__str__`, reads back as the same number |
| Phone.MatchFieldsNonEmpty | TUInventory/telephoneregex.py:36-44 | Each group a number is built from holds at least one digit |
| Phone.StrIsConstant | TUInventory/telephoneregex.py:45-47 | As written, `__str__` returns the same text for every number, and never the formatted number |
| Phone.IntendedRoundTrip | TUInventory/telephoneregex.py:45-47 | With the intended f-string, the printed text determines the number: the four digit fields are parsed back from it |
| Phone.SampleFullNumber | TUInventory/telephoneregex.py:2 | `+049 9729 1422-23` becomes country `049`, area `9729`, subscriber `1422`, extension `23` |
| Phone.SampleWithoutExtension | TUInventory/telephoneregex.py:4 | `09123 161234` matches but has no extension group, so construction raises |
| Phone.SampleDigitsOnly | TUInventory/telephoneregex.py:3 | `12345` matches without group 2, so construction raises |
| Phone.SamplePlusInside | TUInventory/telephoneregex.py:5 | `1612+1` matches without group 2, so construction raises |
| Phone.SampleTrunkOnly | TUInventory/telephoneregex.py:7 | `0` matches without group 2, since no area code follows, so construction raises |
| Phone.SampleLetterInside | TUInventory/telephoneregex.py:9 | `256g1` matches without group 2, so construction raises |
| Phone.SamplesWithoutMatch | TUInventory/telephoneregex.py:6-8 | `+049` and the empty string do not match at all |
| Adapters.NewUser | TUInventory/classes.py:4-8 | The constructor keeps the name and sets password and salt to `None`, whatever is passed |
| Adapters.UserAdapter | TUInventory/adapters.py:5-6 | The row has the two separators of the format plus those inside the fields. With exactly two separators it splits back into name, password text and salt text |
| Adapters.UserConverter | TUInventory/adapters.py:7-9 | Unpacking fails iff the row does not split into exactly three parts. A row that does becomes a `User` with that name and `None` password and salt |
| Adapters.AdapterConverter | TUInventory/adapters.py:5-9 | An adapted user converts back iff no field contains `;`, and then only the name survives |
| Adapters.ConstructedUserRoundTrip | TUInventory/adapters.py:5-9 | A user as the constructor makes it, with no `;` in the name, survives adapter and converter unchanged |
| Adapters.SeparatorInNameFails | TUInventory/adapters.py:7-8 | A name containing `;` splits into more than three parts, and conversion fails |
| Qr.PayloadRoundTrip | TUInventory/qr_generator.py:16 | The payload `id=<uid> name=<article name>` determines the device, whatever the article's name |
| Qr.LastIndex | TUInventory/qr_generator.py:20 | Finds the last occurrence of a character, and finds nothing iff the character is absent |
| Qr.FileType | TUInventory/qr_generator.py:20-21 | A file type, when found, is one line without a dot |
| Qr.FileTypeOfName | TUInventory/qr_generator.py:20-21 | For a one-line `stem.ext` with no dot in `ext`, the type is `ext` lower-cased: the greedy `.*\.` stops at the last dot |
| Qr.UnmatchedPaths | TUInventory/qr_generator.py:20-21 | A path whose first line has no dot, or that has a line break before its last character, has no match |
| Qr.FileTypeIgnoresFinalBreak | TUInventory/qr_generator.py:20-21 | A single final line break does not change the file type |
| Qr.GenerateQr | TUInventory/qr_generator.py:9-27 | The SVG image is built and saved iff the file type is `svg` (QR capacity and write errors are left out), under the given path and with a payload that reads back as the device. Any other type raises `NotImplementedError` naming it. A path without a match raises before the check |
| Qr.UpperCaseSvgIsSaved | TUInventory/qr_generator.py:20-23 | `.SVG` is accepted like `.svg` |
| Qr.ModuleExample | TUInventory/qr_generator.py:40-42 | Device 10 of article `Article` is saved to `test.svg` with payload `id=10 name=Article` |
| UiTabs.OnClick | TUInventory/ui.py:107-153 | After clicking tab k (home counts as tab 1) the page is k-1, and exactly the line under it is shown |
| UiTabs.Initial | TUInventory/ui.py:99-104 | The constructor shows page 0 with only the first line |
| UiTabs.HomeIsFirstTab | TUInventory/ui.py:107-121 | Home and tab 1 have the same effect, which restores the view the constructor set up |
| UiTabs.ConsistentDeterminedByIndex | TUInventory/ui.py:107-153 | Two consistent views on the same page are identical |
| UiTabs.ClickForgetsHistory | TUInventory/ui.py:107-153 | The view after a click does not depend on the view before it |
| UiTabs.LastClickWins | TUInventory/ui.py:107-153 | After any clicks the view stays consistent, and its page is that of the last click |
| UiTree.UsersAt | TUInventory/ui.py:161-163 | The users under a location are a permutation of the users with a responsibility there, each as often as in the users table, sorted by `str` |
| UiTree.DevicesOf | TUInventory/ui.py:170-173 | The devices under a user are a permutation of the devices of a responsibility triple with that user and location, each as often as in the devices table, sorted by `str` |
| UiTree.LocationItems | TUInventory/ui.py:160-168 | Locations without a responsible user are skipped. The item locations are the given locations filtered by that test, so the rest keep their order and their repeats, and each gets the items built for it |
| UiTree.SetTree | TUInventory/ui.py:155-177 | Top-level items are the locations with a responsible user, sorted by name, each as often as in the locations table, each with the items built for it |
| UiTree.TreeContents | TUInventory/ui.py:155-177 | Under every top-level item the user items are the responsible users, each as often as in the users table, sorted by `str`. Under every user item the device items are that user's devices at the location, each as often as in the devices table, sorted by `str` |
| UiTree.UsersAtNonEmpty | TUInventory/ui.py:164 | A location gets an item iff some user has a responsibility there |
| UiForms.UserComboItems | TUInventory/ui.py:233-239 | The user combobox is `""` followed by `"<uid> <str(user)>"` for every user, in order |
| UiForms.ComboRoundTrip | TUInventory/ui.py:239-375 | `int(entry.split(" ")[0])` gives back the uid of the chosen user, whatever the user's `str` |
| UiForms.SubmitUser | TUInventory/ui.py:327-335 | Creating a user stops iff one of the six text boxes is empty. Otherwise an admin is requested iff the box is checked |
| UiForms.SubmitDevice | TUInventory/ui.py:364-375 | Device creation stops with the notice iff a form text is empty. It raises iff the user entry's first word is not an integer. Otherwise it passes on the texts and the uid |
| UiForms.DeviceForComboUser | TUInventory/ui.py:233-375 | Choosing a user entry creates the device for that user, and leaving the combobox on `""` stops the form |
| UiForms.SubmitArticle | TUInventory/ui.py:393-399 | Article creation stops iff the name or the producer is empty |
| UiForms.LastProducerUid | TUInventory/ui.py:221-225 | The loop leaves the uid of the last producer with the selected name, or the earlier value when none has that name |
| UiForms.ReloadArticles | TUInventory/ui.py:215-231 | An empty selection lists every article. Otherwise it lists the names of the articles of the remembered producer uid, as the article table filtered by that uid, in table order and with repeats. It raises iff there is an article and no uid was ever remembered |
| UiForms.SelectedProducerArticles | TUInventory/ui.py:215-228 | Selecting an existing producer with a unique name lists the names of that producer's articles, in table order and with repeats |
| UiForms.StaleSelection | TUInventory/ui.py:221-228 | A selection naming no producer does not raise once a uid was remembered, and keeps that uid |
| UiForms.NeverSetRaises | TUInventory/ui.py:221-227 | The first reload with a selection naming no producer raises when there is an article |
| UiSession.Login | TUInventory/ui.py:251-263 | A submitted dialog replaces the logged-in user, even with `None`. Whenever a user is logged in afterwards, a new 15-minute timer is armed and the fields are filled. Earlier timers stay armed |
| UiSession.Logout | TUInventory/ui.py:265-285 | A timeout firing with nobody logged in raises at line 278. A timeout firing for a logged-in user clears the four text fields first. Then the user is cleared, and a missing timer raises at line 270. With a timer, it is disarmed and deleted and the fields are cleared |
| UiSession.MouseActivity | TUInventory/ui.py:311-319 | Mouse events reset the timer exactly when there is one and change nothing else |
| UiSession.RunValid | TUInventory/ui.py:251-319 | Whatever happens, every armed timer was started and the current timer is armed |
| UiSession.NoTimerWithoutLogin | TUInventory/ui.py:251-257 | Without a login attempt no timer ever exists |
| UiSession.LoginLogoutLogout | TUInventory/ui.py:265-271 | Login then logout succeeds and restores the armed timers; a second logout raises at line 270 |
| UiSession.SecondLoginKeepsFirstTimerArmed | TUInventory/ui.py:256-270 | Logging in twice and out once leaves the first timer armed |
| UiSession.ClosedDialogWhileLoggedIn | TUInventory/ui.py:251-257 | Closing the dialog while logged in arms one more timer and keeps the old one armed |
| Utils.ParsePath | TUInventory/utils.py:10 | A parsed path is rooted iff the text starts with `/`. Its components are the pieces of the text between slashes, with empty and `.` pieces dropped, each as often as in the text; none holds `/` |
| PyText.SplitPartsFree | TUInventory/utils.py:10 | No piece of a split on a separator holds that separator |
| Utils.ParsePathText | TUInventory/utils.py:10-11 | Parsing the printed form of a path gives the path back, rooted or not, when its components are proper and hold no `/` |
| Utils.JoinPath | TUInventory/utils.py:11 | A rooted right-hand side replaces the left one. Otherwise the components are the left ones followed by the right ones |
| Utils.JoinPathLaws | TUInventory/utils.py:11 | Joining is associative and has the empty relative path as right identity |
| Utils.AbsolutePathPlacement | TUInventory/utils.py:8-11 | A relative path resolves under the source directory, and a rooted one is taken as it is |
| Utils.Put | TUInventory/utils.py:38 | `parallel_print` appends the value to the queue and changes nothing else |
| Utils.Consume | TUInventory/utils.py:25-29 | One consumer turn prints the oldest waiting value and calls `task_done` once; on an empty queue it waits |
| Utils.QueueIsFifo | TUInventory/utils.py:15-38 | Under any interleaving of puts and consumer turns, printed values are the put values in put order, each once, followed by those still waiting, with one `task_done` per printed value |
| Utils.ConstructPrinter | TUInventory/utils.py:17-22 | Construction raises `ResourceWarning` iff `_created` is already set, and afterwards `_created` is set |
| Utils.ModuleInit | TUInventory/utils.py:36 | After module initialisation the name is bound to the instance and `_created` is set |
| Utils.CallName | TUInventory/utils.py:31-33 | Calling the instance always raises `ResourceWarning` |
| Utils.OnlyOnePrinter | TUInventory/utils.py:17-36 | Only the very first construction succeeds. After initialisation, calling the name and constructing the class both raise |
| Singleton.Construct | TUInventory/test.py:10-16 | A construction increments its class's count and leaves every other class's count unchanged. Initialisation runs first. It raises iff the new count exceeds the threshold |
| Singleton.ConstructAll | TUInventory/Documentation/Beispielprogramme/meta_printer.py:9-16 | After any sequence of constructions, each class's count grew by the number of its constructions |
| Singleton.ConstructAllOutcomes | TUInventory/Documentation/Beispielprogramme/meta_printer.py:10-16 | In any sequence, a construction raises iff it brings its own class's count above the threshold; other classes do not matter |
| Singleton.FirstConstructionsSucceed | TUInventory/Documentation/Beispielprogramme/meta_printer.py:13-15 | From a fresh counter, exactly the first `threshold` constructions of a class succeed |
| Singleton.OnceRaisingAlwaysRaising | TUInventory/test.py:11-15 | The count also grows on a raising call, so a class that raised once raises forever |
| Singleton.OtherClassesUnaffected | TUInventory/test.py:9-12 | Constructing one class never changes whether another class can be constructed |
| Singleton.InitialisationPrecedesCheck | TUInventory/test.py:11-25 | A raising construction still ran the class's initialisation |
| Singleton.TestScript | TUInventory/test.py:35 | With threshold 1 the first construction succeeds and the second raises |
| Singleton.CallMetaPrinter | TUInventory/Documentation/Beispielprogramme/meta_printer.py:23-26 | Calling the instance puts the value on the class queue and prints nothing yet |
| Singleton.MetaPrinterScript | TUInventory/Documentation/Beispielprogramme/meta_printer.py:40-42 | With threshold 2 the first two constructions succeed and the third raises; `printer("test")` leaves `test` waiting |
| PyText.ParseIntOfIntToString | TUInventory/ui.py:375 | `int(str(n)) == n` for every integer, negative ones included |
| PyText.Filter | TUInventory/ui.py:226-228 | The kept elements are exactly those passing the test, each as often as in the input |
| PyText.FilterConcat | TUInventory/ui.py:226-228 | Filtering distributes over concatenation, so kept elements stay in input order |
| PyText.SplitJoin | TUInventory/adapters.py:5-8 | Splitting fields that hold no separator after joining them with it gives the fields back |
| PyText.JoinSplit | TUInventory/adapters.py:7-8 | Joining the parts of a split with the separator gives the original text |
| PyText.SplitCount | TUInventory/adapters.py:8 | A split has one part more than the text has separators |
| PyText.Lower | TUInventory/qr_generator.py:21 | Lower-casing maps exactly the ASCII capitals to small letters and keeps the length |
| PyText.LexLeTotal | TUInventory/ui.py:159 | Python's string order compares any two strings |
| PyText.LexLeTransitive | TUInventory/ui.py:159 | Python's string order is transitive |
| PyText.LexLeAntisymmetric | TUInventory/ui.py:159 | Strings ordered both ways are equal |
| Sorting.SortBy | TUInventory/ui.py:159-173 | `sort(key=...)` returns a permutation of the list that is ordered by the key |

## Left out

- Camera capture, pyzbar decoding and pixel work (`polylines`, `rectangle`, `putText`, `resize`, `flip`) are foreign libraries. Frames are capture numbers plus the list of marks drawn, and decoder output is an input.
- Camera.WithCamera: the busy-wait `while not read()[0]` is modelled over a finite list of observed reads; a device that never delivers a frame shows up as `Blocked` rather than an endless loop.
- VideoStreams.RunEager: both `run()` methods open the camera again with `with self.camera` (barcodereader.py lines 122 and 234). The `IOError` this raises inside the thread, the busy-wait for a first frame and the release when the loop ends are not modelled: traces start with the camera open.
- A failed `camera.read()` returns no frame, and that `None` is handed to `pyzbar.decode` (barcodereader.py lines 124 and 237). Captured frames and decoder output are inputs, so this failure is not modelled.
- VideoStreams.NewEager: the state is that of a stream whose `run()` has entered its loop, so `running` starts true and no camera session is recorded; `VideoStream.__init__` itself does not touch the camera.
- Barcodes.FindAndMarkBarcodes: decoder payloads are taken as text. `barcode.data.decode("utf-8")` (barcodereader.py lines 102 and 208) raises UnicodeDecodeError for a payload that is not valid UTF-8, and that ends `run()`. This is not modelled, because the decoder's bytes and their UTF-8 decoding belong to foreign libraries.
- Qr.GenerateQr: two failures in foreign code are not modelled. `qr.make(fit=True)` (qr_generator.py line 18) raises qrcode's DataOverflowError when the payload exceeds the largest QR version, before the file type is read. `img.save` (line 26) raises when the path cannot be written. So `Saved` means that the SVG image is built and its save is attempted, not that a file exists.
- Threads, locks and queues (`threading`, `queue`, `gp_lock`, `frame_lock`, `daemon`, `start()`) are reduced to sequential traces of events; no interleaving inside one method is modelled.
- The `if __name__ == "__main__"` loop of barcodereader.py is left out: it only forwards requests and displays frames.
- Config: configparser's option-name lower-casing, interpolation, the DEFAULT section and the whitespace handling of the file format are not modelled; the parser is a plain map of maps.
- Config: `flush`, `read` and the module-level defaults of config.py lines 48-61 are file I/O; the float default `timeout = 15.0` is left out with them.
- Config.ApplyBuiltin: only `int`, `str` and `bool` are modelled; another type name gives an error, where Python would look it up in `builtins`.
- Digits, `int()` and `lower()` are ASCII only; Python also accepts other Unicode digits and letters.
- Adapters.UserConverter: the converter receives bytes and splits on `b";"`; the model works on text, and the byte/text conversion is left out.
- Qt widgets, the status bar, `print` and logging calls are left out; the widgets are reduced to the texts and flags they hold.
- The database and the ORM are abstract sets of locations, users, devices and responsibility triples.
- `Timeout` and `VideoStreamUISync` are not part of this model: `classes.py` as given is only a `User` stub. A timer is a serial number with its duration and reset count.
- `b_create_device_click` after the uid has been read (the database writes, the file-name check and the call of `generate_qr`) is left out: it calls `normalize_filename`, `validate_filename` and `classes.Device`, which are not part of this model.
- The ORM lookup and the `IntegrityError` handling of `b_create_article_click` are left out.
- `set_phonenumber`, `reset_password`, `update_user` and the producer and location comboboxes are left out: they only forward to the database or to code that is not part of this model.
- Sorting.SortBy: stability of Python's sort is not stated; only ordering and permutation are proved.
- Utils.ParsePath: `..` components, Windows paths and the POSIX rule that keeps exactly two leading slashes (`//x`) are not modelled. The directory of the source file, `os.path.dirname(__file__)`, is a parameter.
- The printing thread's endless loop is modelled as explicit consumer turns, and `print` as appending to a list of printed values.

## Findings

| source | as written | input that shows it | evidently intended | confidence | as-written member | corrected member |
|---|---|---|---|---|---|---|
| TUInventory/config.py:31 | `type_ == bool` compares the matched type name, a string, with the type object, so the guard never holds and `bool("False")` is returned | `config["k"] = False`, then `config["k"]` gives `True` | compare the name: `type_ == "bool"`, so a stored `False` reads back as `False` | not executed | Config.StoredFalseReadsTrue | Config.IntendedRoundTrip |
| TUInventory/telephoneregex.py:47 | the returned literal starts with `"f+{self.country_code} ..."`, a plain string, so every number prints the same text | any two numbers, e.g. those of `+049 9729 1422-23` and `+1 2 3-4` | an f-string `f"+{self.country_code} {self.area_code} {self.subscriber_number}{extension}"` | not executed | Phone.StrIsConstant | Phone.IntendedRoundTrip |
