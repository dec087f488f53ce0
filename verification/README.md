# Verification models of the mail server and the web client

A Dafny project that models the most stateful parts of two code bases kept in one repository, and proves what they
keep on every input and in every run:

* **Dumbster**, an SMTP test server in Java. The command protocol (SmtpProtocol), the session loop as a class and as a
  step function (ClientSession), what holds on arbitrary lines (SessionInvariants, RememberedName), the end-to-end
  theorem from client scripts to stored mails (MailDelivery, HeaderFolding), the rolling store used by one thread
  (RollingStore) and by many as interleaved atomic steps (SharedStore), the whole server with its thread pool and many
  clients (ConcurrentDelivery), and the file store that prints and re-reads messages (EmlFiles, EmlStore, MailToFile).
* **The Axelor web client**, JavaScript. The HTML parser and the sanitizing writer (HtmlParser, HtmlTokens, HtmlNesting,
  HtmlEffects, SanitizeWriter, HtmlSanitizer, HtmlVocabulary, EntityEncoding), the action queue (ActionQueue), paging
  (Paging, DataSource), the tab manager (NavTabs, NavService), drag and drop in the tree view (TreeMoves, TreeView), dashboard
  packing (Dashboard), the tab order of the grid (GridScan), saved searches (SearchFilter, FilterForm) and durations
  (Durations).

Code that changes state is a class or a method with loops, each tied to a function of the old state; the theorems are
lemmas about those functions. `dafny verify dfyconfig.toml` checks everything. Text and Decimals hold string helpers.

Where the code and its documentation or its evident purpose differ, the model follows the code:

* `appendHeader` is documented to extend the last value; it removes the first value equal to it, so order can be lost
  (MailMessages.ExtendLastInPlace, HeaderFolding.InOrderThroughoutIff).
* The rolling store keeps the last hundred messages for one thread only (SharedStore.LastHundredIff); with the ten of a
  threaded server it may keep as few as 91 (ConcurrentDelivery.EveryClientsMailsAreAdded).
* Any command that leaves a session in QUIT, such as NOOP, stores one more empty message
  (SessionInvariants.StoredMinusEndsOfData).
* A header name remembered from one mail can receive a continuation line of the next (RememberedName.MailIsItsOwnLines).
* A self-closing script silences the sanitizer until a later element of that name ends (SanitizeWriter.StuckIgnore).
* The parser reports the last line of a script before the earlier ones, as the dot of its pattern stops at a newline;
  the order that HtmlEffects.EverythingIsReported states is that of its passes.
* Without a whole page before it, the first record of a page is followed backwards by the end of the first page
  (Paging.PrevItemIsThePrevious).
* Outside trees that count children, a drop that the table refuses still changes the saved parent
  (TreeMoves.ModelRunsStayAcyclicIff).
* Closing a tab that is not listed removes the last listed one (NavTabs.UnlistedCloseIff).
* The sanitizer encodes characters above U+FFFF as two numbers that a browser does not show as the character
  (EntityEncoding.EncodeThenShow).
* A header value with a line separator of Unicode in it is cut short by the file store (MailToFile.MailSurvivesFile).
* A saved "is false" row is lost when the search is loaded, together with all rows after it, and a row that equals
  false, or of a selection over many records, comes back as another criterion (SearchFilters.SaveLoadSaveIff).

## Model

| member | source | states |
|---|---|---|
| `MailMessages.MailMessageImpl.GetHeaderValues` | dumbster-23d2ccc1f92947d861cd07f1e15a98f8ff783125/src/com/dumbster/smtp/MailMessageImpl.java:43-50 | the list of values of a name, empty when the name is absent |
| `MailMessages.MailMessageImpl.GetFirstHeaderValue` | dumbster-23d2ccc1f92947d861cd07f1e15a98f8ff783125/src/com/dumbster/smtp/MailMessageImpl.java:52-60 | the first value of a name; no value exactly when the name has none |
| `MailMessages.MailMessageImpl.AddHeader` | dumbster-23d2ccc1f92947d861cd07f1e15a98f8ff783125/src/com/dumbster/smtp/MailMessageImpl.java:66-73 | one more value at the end of the list of that name, nothing else changes |
| `MailMessages.MailMessageImpl.AppendHeader` | dumbster-23d2ccc1f92947d861cd07f1e15a98f8ff783125/src/com/dumbster/smtp/MailMessageImpl.java:75-85 | the value equal to the last one is taken out by value, at its first occurrence, and its extension is put at the end; an unknown name is added |
| `MailMessages.MailMessageImpl.AppendBody` | dumbster-23d2ccc1f92947d861cd07f1e15a98f8ff783125/src/com/dumbster/smtp/MailMessageImpl.java:87-96 | the text is added after a newline, unless the body or the text is empty or the text is itself a newline |
| `MailMessages.ExtendLastMultiset` | dumbster-23d2ccc1f92947d861cd07f1e15a98f8ff783125/src/com/dumbster/smtp/MailMessageImpl.java:80-83 | extending a header replaces one value by its extension and neither loses nor invents another |
| `MailMessages.ExtendLastInPlace` | dumbster-23d2ccc1f92947d861cd07f1e15a98f8ff783125/src/com/dumbster/smtp/MailMessage.java:47-58 | the promise that the text goes to the last value, the others staying in place, is met exactly when nothing else stands between the first value equal to the last one and the end |
| `MailMessages.MisplacedValueCanBeRepaired` | dumbster-23d2ccc1f92947d861cd07f1e15a98f8ff783125/src/com/dumbster/smtp/MailMessageImpl.java:80-83 | two misplaced extensions can cancel, so a list that is in order at the end does not show that every extension was |
| `SmtpProtocol.RefusalsAndSilence` | dumbster-23d2ccc1f92947d861cd07f1e15a98f8ff783125/src/com/dumbster/smtp/action/Unrecognized.java:15-22 | a refused command leaves the state as it is; nothing is sent exactly for the lines inside a DATA block |
| `SmtpProtocol.DataIsTransparent` | dumbster-23d2ccc1f92947d861cd07f1e15a98f8ff783125/src/com/dumbster/smtp/Request.java:64-102 | inside a DATA block no line is taken for a command and only the dot ends it; outside, no line ends or separates anything |
| `SmtpProtocol.CommandByPrefix` | dumbster-23d2ccc1f92947d861cd07f1e15a98f8ff783125/src/com/dumbster/smtp/Request.java:104-136 | each command is recognized exactly by its own prefix, so the order of the tests does not matter |
| `SmtpProtocol.CommandParams` | dumbster-23d2ccc1f92947d861cd07f1e15a98f8ff783125/src/com/dumbster/smtp/Request.java:104-147 | what follows EHLO and a blank, MAIL FROM: and RCPT TO: is the parameter, in whatever case the command is; the other commands have none |
| `SmtpProtocol.CommandsIgnoreCase` | dumbster-23d2ccc1f92947d861cd07f1e15a98f8ff783125/src/com/dumbster/smtp/Request.java:105 | lines that differ only in the case of letters of the alphabet are the same command |
| `SmtpProtocol.SameUpperIff` | dumbster-23d2ccc1f92947d861cd07f1e15a98f8ff783125/src/com/dumbster/smtp/Request.java:105 | two lines are the same in upper case exactly when they differ in the case of letters only; a line without small letters stays as it is |
| `SmtpProtocol.CodeTells` | dumbster-23d2ccc1f92947d861cd07f1e15a98f8ff783125/src/com/dumbster/smtp/action/Unrecognized.java:15-22 | each reply code tells what happened: 500 a line that is no command, 503 a command out of sequence, 354 the start of a DATA block, 221 the end, 252 and 211 what is not supported, 250 any other success |
| `SmtpProtocol.AcceptedLeadsTo` | dumbster-23d2ccc1f92947d861cd07f1e15a98f8ff783125/src/com/dumbster/smtp/action/Ehlo.java:14-21 | where each accepted command leads |
| `Sessions.ClientSession.constructor` | dumbster-23d2ccc1f92947d861cd07f1e15a98f8ff783125/src/com/dumbster/smtp/ClientSession.java:20-26 | a session starts with an empty message and the banner of the initial request |
| `Sessions.ClientSession.AddHeaderLine` | dumbster-23d2ccc1f92947d861cd07f1e15a98f8ff783125/src/com/dumbster/smtp/ClientSession.java:113-135 | the header line changes message and remembered name as AddDataHeader says: a name before a colon starts a value, white space continues the remembered one with a leading tab dropped |
| `Sessions.TabIsDropped` | dumbster-23d2ccc1f92947d861cd07f1e15a98f8ff783125/src/com/dumbster/smtp/ClientSession.java:119-127 | a line that begins with a tab adds what follows the tab to the last value of the remembered name, and changes nothing else |
| `Sessions.BlankIsKept` | dumbster-23d2ccc1f92947d861cd07f1e15a98f8ff783125/src/com/dumbster/smtp/ClientSession.java:119-135 | a line that begins with a blank, line feed, carriage return, vertical tab or form feed adds all of itself |
| `Sessions.OthersAddNothing` | dumbster-23d2ccc1f92947d861cd07f1e15a98f8ff783125/src/com/dumbster/smtp/ClientSession.java:113-135 | a line that begins otherwise and has no colon changes nothing |
| `Sessions.ClientSession.StoreInputInMessage` | dumbster-23d2ccc1f92947d861cd07f1e15a98f8ff783125/src/com/dumbster/smtp/ClientSession.java:97-111 | parameters go to the headers or to the body according to the state that follows |
| `Sessions.ClientSession.SaveAndRefreshMessageIfComplete` | dumbster-23d2ccc1f92947d861cd07f1e15a98f8ff783125/src/com/dumbster/smtp/ClientSession.java:90-95 | in QUIT the message is handed to the store, which keeps the last hundred, and a fresh empty one replaces it; otherwise nothing changes |
| `Sessions.ClientSession.HandleLine` | dumbster-23d2ccc1f92947d861cd07f1e15a98f8ff783125/src/com/dumbster/smtp/ClientSession.java:72-77 | one round of the loop is the step function of the protocol, and the store receives exactly what the step delivers |
| `Sessions.ClientSession.SessionLoop` | dumbster-23d2ccc1f92947d861cd07f1e15a98f8ff783125/src/com/dumbster/smtp/ClientSession.java:70-79 | the loop computes the run of all lines; the store ends with the last hundred of its old messages and those delivered |
| `Sessions.ClientSession.Serve` | dumbster-23d2ccc1f92947d861cd07f1e15a98f8ff783125/src/com/dumbster/smtp/ClientSession.java:28-55 | a whole connection from the banner on is the run of its lines, and the stored messages of other sessions are untouched |
| `Sessions.RunAppend` | dumbster-23d2ccc1f92947d861cd07f1e15a98f8ff783125/src/com/dumbster/smtp/ClientSession.java:70-79 | what a session does with two blocks of lines is what it does with the first and then with the second |
| `SessionInvariants.AlwaysClean` | dumbster-23d2ccc1f92947d861cd07f1e15a98f8ff783125/src/com/dumbster/smtp/ClientSession.java:70-111 | on every input and at every line: outside a DATA block the current message is empty, and among the headers its body is |
| `SessionInvariants.DeliveryOfOneStep` | dumbster-23d2ccc1f92947d861cd07f1e15a98f8ff783125/src/com/dumbster/smtp/ClientSession.java:90-95 | a line delivers a message exactly when it ends a DATA block or finds the session in QUIT and leaves it there; in the second case the message is empty |
| `SessionInvariants.StoredMinusEndsOfData` | dumbster-23d2ccc1f92947d861cd07f1e15a98f8ff783125/src/com/dumbster/smtp/ClientSession.java:70-95 | on every input, stored messages minus end-of-data lines equals the number of steps that stay in QUIT, and each of those stores an empty message |
| `SessionInvariants.History.OpenedInOrder` | dumbster-23d2ccc1f92947d861cd07f1e15a98f8ff783125/src/com/dumbster/smtp/action/Data.java:15-24 | every DATA block is preceded by a greeting, then by MAIL, then opened by DATA, with no reset in between |
| `SessionInvariants.NonEmptyMessagesComeFromData` | dumbster-23d2ccc1f92947d861cd07f1e15a98f8ff783125/src/com/dumbster/smtp/ClientSession.java:70-122 | on every input, a message stored at line k that is not empty ends a DATA block opened in order, and is made of the lines of that block alone apart from the remembered header name |
| `SessionInvariants.RunIgnoresHistory` | dumbster-23d2ccc1f92947d861cd07f1e15a98f8ff783125/src/com/dumbster/smtp/ClientSession.java:70-122 | message, state and remembered name never depend on what was delivered or answered before |
| `SessionInvariants.NothingStoredWithoutTransaction` | dumbster-23d2ccc1f92947d861cd07f1e15a98f8ff783125/src/com/dumbster/smtp/ClientSession.java:70-95 | on every input, something is stored only if the lines hold, in this order, a greeting, MAIL, DATA and a lone dot |
| `SessionInvariants.OneReplyEach` | dumbster-23d2ccc1f92947d861cd07f1e15a98f8ff783125/src/com/dumbster/smtp/ClientSession.java:57-79 | on every input, client and server stay in step: one reply for each line read, except those of a mail before its final dot |
| `RememberedName.MailIsItsOwnLines` | dumbster-23d2ccc1f92947d861cd07f1e15a98f8ff783125/src/com/dumbster/smtp/ClientSession.java:113-122 | a mail is the same whatever name was remembered before its DATA block exactly when no continuation line comes before its first header line |
| `MailDelivery.HeaderLineAddsToFields` | dumbster-23d2ccc1f92947d861cd07f1e15a98f8ff783125/src/com/dumbster/smtp/ClientSession.java:113-122 | addDataHeader does to the message what a header line, a continuation or any other line does to the list of fields, after any lines and with any name remembered from an earlier mail |
| `MailDelivery.WrittenFieldsAreRead` | dumbster-23d2ccc1f92947d861cd07f1e15a98f8ff783125/src/com/dumbster/smtp/ClientSession.java:113-122 | fields with any names and texts, written out with their continuations, are read back as they are, the name and the first text trimmed, whatever name is remembered |
| `MailDelivery.UsualFieldIsExact` | dumbster-23d2ccc1f92947d861cd07f1e15a98f8ff783125/src/com/dumbster/smtp/ClientSession.java:116-118 | with a blank after the colon and no white space around, name and value come back exactly |
| `Text.TrimExact` | dumbster-23d2ccc1f92947d861cd07f1e15a98f8ff783125/src/com/dumbster/smtp/ClientSession.java:115-117 | trim takes the characters up to the blank off both ends of a text and no other |
| `MailDelivery.OtherLinesAreIgnored` | dumbster-23d2ccc1f92947d861cd07f1e15a98f8ff783125/src/com/dumbster/smtp/ClientSession.java:113-122 | a line that is neither a header nor a continuation can be left out anywhere |
| `MailDelivery.StuffingShowsInDots` | dumbster-23d2ccc1f92947d861cd07f1e15a98f8ff783125/src/com/dumbster/smtp/Request.java:78-88 | as stuffed dots stay in headers, the server takes the header lines as meant exactly when none begins with a dot |
| `MailDelivery.UsualCommands` | dumbster-23d2ccc1f92947d861cd07f1e15a98f8ff783125/src/com/dumbster/smtp/Request.java:104-136 | EHLO, HELO, MAIL FROM:, RCPT TO:, DATA and QUIT, whatever follows them, are these commands |
| `MailDelivery.HeaderRun` | dumbster-23d2ccc1f92947d861cd07f1e15a98f8ff783125/src/com/dumbster/smtp/ClientSession.java:113-122 | any header lines of a block leave the headers that their fields make, and the last name remembered |
| `MailDelivery.BodyRun` | dumbster-23d2ccc1f92947d861cd07f1e15a98f8ff783125/src/com/dumbster/smtp/Request.java:90-102 | dot-stuffed body lines come out unstuffed |
| `MailDelivery.BodyIsJoined` | dumbster-23d2ccc1f92947d861cd07f1e15a98f8ff783125/src/com/dumbster/smtp/MailMessageImpl.java:87-96 | the lines come out joined by newlines, with one more in front when the first line is empty |
| `MailDelivery.BodyIsExactUnlessFirstLineEmpty` | dumbster-23d2ccc1f92947d861cd07f1e15a98f8ff783125/src/com/dumbster/smtp/MailMessageImpl.java:87-96 | the stored body is the lines joined by newlines exactly when the first line is not empty |
| `MailDelivery.EnvelopeRun` | dumbster-23d2ccc1f92947d861cd07f1e15a98f8ff783125/src/com/dumbster/smtp/Request.java:104-136 | MAIL, any number of RCPT and DATA lead from between mails into the header block, each accepted |
| `MailDelivery.ScriptRun` | dumbster-23d2ccc1f92947d861cd07f1e15a98f8ff783125/src/com/dumbster/smtp/ClientSession.java:70-122 | one mail, from MAIL to the final dot, is stored and leaves the session ready for the next |
| `MailDelivery.EveryMailIsStored` | dumbster-23d2ccc1f92947d861cd07f1e15a98f8ff783125/src/com/dumbster/smtp/ClientSession.java:70-122 | for any list of mails between any EHLO or HELO line and any QUIT line, each mail with any header lines: exactly those mails are stored, in order, each made of its own lines and the name that the mails before it left, every command is accepted and the connection is closed |
| `MailDelivery.AllStoredAlone` | dumbster-23d2ccc1f92947d861cd07f1e15a98f8ff783125/src/com/dumbster/smtp/ClientSession.java:113-122 | mails whose header lines do not begin by continuing a field are stored in any company as they would be alone |
| `HeaderFolding.StoredHeadersAreTheFields` | dumbster-23d2ccc1f92947d861cd07f1e15a98f8ff783125/src/com/dumbster/smtp/ClientSession.java:113-127 | for any header lines and any remembered name, each name has the unfolded values of its fields with the same multiplicities, and no other name is present |
| `HeaderFolding.FoldedFieldIsStored` | dumbster-23d2ccc1f92947d861cd07f1e15a98f8ff783125/src/com/dumbster/smtp/ClientSession.java:113-135 | a field written as name, colon, blank and value and folded into any lines is stored as the value followed by the folded texts, without their tabs and with any other white space |
| `HeaderFolding.InOrderThroughoutIff` | dumbster-23d2ccc1f92947d861cd07f1e15a98f8ff783125/src/com/dumbster/smtp/MailMessageImpl.java:75-85 | the values are in the order of the fields after every header line exactly when no continuation extends a value that other values follow from an earlier equal one on |
| `HeaderFolding.StoredHeadersKeepOrder` | dumbster-23d2ccc1f92947d861cd07f1e15a98f8ff783125/src/com/dumbster/smtp/ClientSession.java:113-127 | then the stored values are in the order of the fields |
| `HeaderFolding.FoldingCanReorder` | dumbster-23d2ccc1f92947d861cd07f1e15a98f8ff783125/src/com/dumbster/smtp/MailMessageImpl.java:75-85 | after two fields of one name with different values and a third like the first, any continuation loses the order |
| `HeaderFolding.Send` | dumbster-23d2ccc1f92947d861cd07f1e15a98f8ff783125/src/com/dumbster/smtp/ClientSession.java:28-79 | a client that sends its mails over one connection leaves the last hundred of them in the store |
| `RollingStore.RollingMailStore.AddMessage` | dumbster-23d2ccc1f92947d861cd07f1e15a98f8ff783125/src/com/dumbster/smtp/mailstores/RollingMailStore.java:22-27 | used by one thread, the store keeps the last hundred of its messages and the new one |
| `RollingStore.RollingMailStore.ClearMessages` | dumbster-23d2ccc1f92947d861cd07f1e15a98f8ff783125/src/com/dumbster/smtp/mailstores/RollingMailStore.java:37-40 | the store is empty |
| `SharedStore.SharedStoreIsSound` | dumbster-23d2ccc1f92947d861cd07f1e15a98f8ff783125/src/com/dumbster/smtp/mailstores/RollingMailStore.java:22-27 | in every interleaving of any number of sessions: remove(0) never meets an empty list, the list is a suffix of the order of adding, and its size lies between the number of sessions inside addMessage and 100 more |
| `SharedStore.QuietStore` | dumbster-23d2ccc1f92947d861cd07f1e15a98f8ff783125/src/com/dumbster/smtp/mailstores/RollingMailStore.java:22-27 | with nobody inside addMessage the store holds at most the last 100 messages, and with n sessions at least the last 101 - n or all |
| `SharedStore.SoleSessionKeepsLastHundred` | dumbster-23d2ccc1f92947d861cd07f1e15a98f8ff783125/src/com/dumbster/smtp/mailstores/RollingMailStore.java:22-27 | one session alone leaves exactly the last min(n, 100) messages |
| `SharedStore.UndisturbedAdd` | dumbster-23d2ccc1f92947d861cd07f1e15a98f8ff783125/src/com/dumbster/smtp/mailstores/RollingMailStore.java:22-27 | the three atomic steps, undisturbed, do what the sequential addMessage does |
| `SharedStore.ConcurrentAddersLoseMessages` | dumbster-23d2ccc1f92947d861cd07f1e15a98f8ff783125/src/com/dumbster/smtp/mailstores/RollingMailStore.java:22-27 | the lower bound is reached: n concurrent adders can leave only the last 101 - n of 101 messages, so the sequential claim is false with two |
| `SharedStore.LastHundredIff` | dumbster-23d2ccc1f92947d861cd07f1e15a98f8ff783125/src/com/dumbster/smtp/mailstores/RollingMailStore.java:22-27 | every run that ends quietly leaves exactly the last min(n, 100) messages if and only if there is at most one session |
| `ConcurrentDelivery.SessionsDoNotDisturb` | dumbster-23d2ccc1f92947d861cd07f1e15a98f8ff783125/src/com/dumbster/smtp/SmtpServer.java:65-83 | whatever any number of clients send and however their sessions interleave on any number of threads: remove(0) never throws, what each session has added is what its own lines deliver, in its order, and the list is a suffix of all that was added |
| `ConcurrentDelivery.EveryRunEnds` | dumbster-23d2ccc1f92947d861cd07f1e15a98f8ff783125/src/com/dumbster/smtp/SmtpServer.java:65-83 | a run takes at most three steps for each line and one for each session, so every run can be brought to its end |
| `ConcurrentDelivery.EveryClientsMailsAreAdded` | dumbster-23d2ccc1f92947d861cd07f1e15a98f8ff783125/src/com/dumbster/smtp/SmtpServer.java:31-83 | when clients have sent their mails over concurrent connections: all that was added is an interleaving of the mails of the clients, each in order, and the store has the end of it: all of it, or at most the last 100 and, with ten threads, at least the last 91 |
| `ConcurrentDelivery.SingleThreadKeepsLastHundred` | dumbster-23d2ccc1f92947d861cd07f1e15a98f8ff783125/src/com/dumbster/smtp/SmtpServer.java:31-83 | without threads the clients are served one after the other, and the store has exactly the last hundred of their mails in that order |
| `EmlStore.WriteValues` | dumbster-23d2ccc1f92947d861cd07f1e15a98f8ff783125/src/com/dumbster/smtp/mailstores/EMLMailStore.java:99-105 | one printed line for every value of a name, in order |
| `EmlStore.WriteMessage` | dumbster-23d2ccc1f92947d861cd07f1e15a98f8ff783125/src/com/dumbster/smtp/mailstores/EMLMailStore.java:97-109 | the file is the printed form of the message, its names in some order, each once |
| `EmlStore.EMLMailMessage.LoadFile` | dumbster-23d2ccc1f92947d861cd07f1e15a98f8ff783125/src/com/dumbster/smtp/eml/EMLMailMessage.java:107-130 | reading line by line adds to the delegate what the reading function says |
| `EmlStore.EMLMailMessage.CheckLoaded` | dumbster-23d2ccc1f92947d861cd07f1e15a98f8ff783125/src/com/dumbster/smtp/eml/EMLMailMessage.java:49-54 | the file is read once, at the first question, on top of what was added before |
| `EmlStore.EMLMailMessage.GetBody` | dumbster-23d2ccc1f92947d861cd07f1e15a98f8ff783125/src/com/dumbster/smtp/eml/EMLMailMessage.java:77-81 | the body of a message that was not touched is that of its file |
| `EmlStore.EMLMailMessage.GetHeaderValues` | dumbster-23d2ccc1f92947d861cd07f1e15a98f8ff783125/src/com/dumbster/smtp/eml/EMLMailMessage.java:59-63 | so are the values of a name |
| `EmlStore.FilenameTellsCount` | dumbster-23d2ccc1f92947d861cd07f1e15a98f8ff783125/src/com/dumbster/smtp/mailstores/EMLMailStore.java:119-125 | file names of different counts differ, so no message overwrites the file of another |
| `EmlStore.EMLMailStore.AddMessage` | dumbster-23d2ccc1f92947d861cd07f1e15a98f8ff783125/src/com/dumbster/smtp/mailstores/EMLMailStore.java:81-117 | the message is appended and its print stored under its own name; the print of every message stored before is still there |
| `EmlStore.EMLMailStore.GetFilename` | dumbster-23d2ccc1f92947d861cd07f1e15a98f8ff783125/src/com/dumbster/smtp/mailstores/EMLMailStore.java:119-125 | count, subject of the message or null, and the replaced characters |
| `EmlStore.FilenameIs` | dumbster-23d2ccc1f92947d861cd07f1e15a98f8ff783125/src/com/dumbster/smtp/mailstores/EMLMailStore.java:119-125 | the file name is the number, the first subject or null, and the ending, with an underscore for each of eight characters and every other character as it is |
| `EmlStore.EveryPrintLoads` | dumbster-23d2ccc1f92947d861cd07f1e15a98f8ff783125/src/com/dumbster/smtp/eml/EMLMailMessage.java:107-130 | every print of a message, whatever the order of the names, reads back as the same headers and a body without blank lines |
| `EmlFiles.PrintThenLoad` | dumbster-23d2ccc1f92947d861cd07f1e15a98f8ff783125/src/com/dumbster/smtp/eml/EMLMailMessage.java:107-130 | with header names free of a colon and a space and no line breaks in names and values, printing and reading gives the same name-to-values map and the non-empty lines of the body joined by newlines |
| `EmlFiles.SeparatorsEndLines` | dumbster-23d2ccc1f92947d861cd07f1e15a98f8ff783125/src/com/dumbster/smtp/eml/EMLMailMessage.java:107-130 | any of the five line separators ends a line, carriage return and line feed together as one, and nothing else does |
| `EmlFiles.HeadersSurviveIff` | dumbster-23d2ccc1f92947d861cd07f1e15a98f8ff783125/src/com/dumbster/smtp/eml/EMLMailMessage.java:107-130 | the headers come back exactly when their names have no colon and space and neither names nor values a line separator |
| `EmlFiles.SurvivesExactlyWhenClean` | dumbster-23d2ccc1f92947d861cd07f1e15a98f8ff783125/src/com/dumbster/smtp/eml/EMLMailMessage.java:21 | printing and reading is the identity exactly on messages with clean names and values and a body without blank lines |
| `EmlFiles.BlankLinesOnly` | dumbster-23d2ccc1f92947d861cd07f1e15a98f8ff783125/src/com/dumbster/smtp/eml/EMLMailMessage.java:107-128 | a body comes back unchanged exactly when it has no blank line, and a second time nothing more is lost |
| `EmlFiles.ReloadIsIdempotent` | dumbster-23d2ccc1f92947d861cd07f1e15a98f8ff783125/src/com/dumbster/smtp/mailstores/EMLMailStore.java:97-109 | whatever the text of a file is, storing the message that was read from it gives the same message again |
| `MailToFile.StoredMessagesReload` | dumbster-23d2ccc1f92947d861cd07f1e15a98f8ff783125/src/com/dumbster/smtp/mailstores/EMLMailStore.java:81-117 | whatever a client sends, the headers of a stored message come back from its file exactly when they are clean, then with a body without blank lines; they are clean when no line among headers has a line separator in it |
| `MailToFile.MailSurvivesFile` | dumbster-23d2ccc1f92947d861cd07f1e15a98f8ff783125/src/com/dumbster/smtp/eml/EMLMailMessage.java:107-130 | a mail that is stored, printed and read back has its headers exactly when no name and no unfolded value of its fields has a line separator in it; body lines without one come back if they are not empty |
| `MailToFile.SessionsRememberSuch` | dumbster-23d2ccc1f92947d861cd07f1e15a98f8ff783125/src/com/dumbster/smtp/ClientSession.java:113-122 | whatever the client sends, the header name that a session remembers has no colon in it, as MailSurvivesFile asks |
| `MailToFile.CleanIffFieldsAreLines` | dumbster-23d2ccc1f92947d861cd07f1e15a98f8ff783125/src/com/dumbster/smtp/ClientSession.java:113-122 | the headers made of any header lines are fit for a file exactly under that condition |
| `MailToFile.SeparatorInValueIsLost` | dumbster-23d2ccc1f92947d861cd07f1e15a98f8ff783125/src/com/dumbster/smtp/eml/EMLMailMessage.java:107-130 | a header line with a line separator in its value does not come back |
| `MailToFile.UnicodeSeparatorIsSuch` | dumbster-23d2ccc1f92947d861cd07f1e15a98f8ff783125/src/com/dumbster/smtp/ClientSession.java:86-88 | a line with U+2028, which readLine passes on, is such a line |
| `EntityEncoding.ChainIsOnePass` | ak342m/axelor-web/src/main/webapp/lib/angular/angular-sanitize.js:335-343 | the four successive replacements are one pass over the characters: none touches what an earlier one put in |
| `EntityEncoding.EncodedCharacter` | ak342m/axelor-web/src/main/webapp/lib/angular/angular-sanitize.js:335-343 | what becomes of each character: three get their names, the rest of printable ASCII but the double quote stays, any other is written as the numbers of its code units |
| `EntityEncoding.EncodedTextIsInert` | ak342m/axelor-web/src/main/webapp/lib/angular/angular-sanitize.js:328-343 | encoded text has no angle bracket and no quote |
| `EntityEncoding.EncodeThenShow` | ak342m/axelor-web/src/main/webapp/lib/angular/angular-sanitize.js:335-343 | what a browser shows for encoded text, by the rules of the HTML standard for numeric references, is the text exactly when each character has one UTF-16 code unit, is not U+0000 and is not a control character that these rules replace |
| `EntityEncoding.LostCharacters` | ak342m/axelor-web/src/main/webapp/lib/angular/angular-sanitize.js:338-340 | a character above U+FFFF is encoded as its two halves and shown as two replacement characters; U+0080 is shown as the euro sign |
| `HtmlNesting.EventsAreWellNested` | ak342m/axelor-web/src/main/webapp/lib/angular/angular-sanitize.js:194-315 | on every html, with any matchers and decoder: the events nest with matching names; at every point no block is directly in an inline element, no optional-end-tag element directly in one of its name, nothing is in a script or style; when the parser returns, all elements are closed |
| `HtmlNesting.OpenedIsFaithful` | ak342m/axelor-web/src/main/webapp/lib/angular/angular-sanitize.js:267-295 | the implied end tags of one start tag keep nesting and shape |
| `HtmlTokens.TextIsTaken` | ak342m/axelor-web/src/main/webapp/lib/angular/angular-sanitize.js:236-241 | text up to the next bracket or the end of the html is taken as one token and decoded |
| `HtmlTokens.CommentIsTaken` | ak342m/axelor-web/src/main/webapp/lib/angular/angular-sanitize.js:205-213 | a comment up to its first end is taken as one token with its text |
| `HtmlTokens.ShortestComments` | ak342m/axelor-web/src/main/webapp/lib/angular/angular-sanitize.js:207-211 | in the two shortest comments the dashes of the beginning are those of the end, and are reported |
| `HtmlTokens.EndTagIff` | ak342m/axelor-web/src/main/webapp/lib/angular/angular-sanitize.js:216 | an end tag begins with a bracket, any white space and a slash |
| `HtmlTokens.LowerIsSmall` | ak342m/axelor-web/src/main/webapp/lib/angular/angular-sanitize.js:268 | a name in lower case has the small letter for each capital and every other character as it is |
| `HtmlTokens.OneToken` | ak342m/axelor-web/src/main/webapp/lib/angular/angular-sanitize.js:201-242 | a description of the token that names the html and the matches only fits what the parser takes, and nothing else |
| `HtmlEffects.StartTagEffect` | ak342m/axelor-web/src/main/webapp/lib/angular/angular-sanitize.js:267-295 | a start tag ends only what it has to: inline elements when it is a block, then one element of its own name that may be left open; it is then reported, and open unless void or self-closing |
| `HtmlEffects.EndTagEffect` | ak342m/axelor-web/src/main/webapp/lib/angular/angular-sanitize.js:297-314 | an end tag ends the closest element of its name and everything inside, innermost first, or nothing |
| `HtmlEffects.EverythingIsReported` | ak342m/axelor-web/src/main/webapp/lib/angular/angular-sanitize.js:194-265 | on every html the events other than ends are exactly what the passes read, told by the description of tokens, in the order of the passes: nothing is lost or added |
| `HtmlEffects.LastValueWins` | ak342m/axelor-web/src/main/webapp/lib/angular/angular-sanitize.js:284-293 | each attribute name is reported once, with the last value given for it |
| `SanitizeWriter.VisibleIsWritten` | ak342m/axelor-web/src/main/webapp/lib/angular/angular-sanitize.js:355-397 | with no self-closing script or style, exactly the allowed part of what stands outside these elements is written, in order |
| `SanitizeWriter.OutputIsTheVisiblePart` | ak342m/axelor-web/src/main/webapp/lib/angular/angular-sanitize.js:117-121 | this holds for the events of every html |
| `SanitizeWriter.AllowedIff` | ak342m/axelor-web/src/main/webapp/lib/angular/angular-sanitize.js:367-376 | an attribute is kept exactly when its name is allowed in whatever case and, where it has to be a link, its value begins with a number sign, mailto or one of ftp, http and https with two slashes |
| `SanitizeWriter.AllowedInOrder` | ak342m/axelor-web/src/main/webapp/lib/angular/angular-sanitize.js:367-376 | each attribute is kept or dropped by itself, in its place |
| `SanitizeWriter.MatchesUriIff` | ak342m/axelor-web/src/main/webapp/lib/angular/angular-sanitize.js:132 | exactly these links match |
| `SanitizeWriter.OtherSchemesAreDropped` | ak342m/axelor-web/src/main/webapp/lib/angular/angular-sanitize.js:132 | a link of any other scheme, such as javascript, does not match |
| `HtmlNesting.StuckExactly` | ak342m/axelor-web/src/main/webapp/lib/angular/angular-sanitize.js:198-262 | a pass leaves the text as it is exactly when it starts with a bracket that begins no finished comment and no tag, or when the end of the open script or style is missing; otherwise it shortens it |
| `HtmlNesting.ThrowsExactlyWhenStuck` | ak342m/axelor-web/src/main/webapp/lib/angular/angular-sanitize.js:258-261 | the parse error is thrown exactly when such a text is reached; in all other cases the parser returns |
| `HtmlSanitizer.HtmlParsing.CloseFrom` | ak342m/axelor-web/src/main/webapp/lib/angular/angular-sanitize.js:306-313 | the elements from the top down to a position are ended, innermost first, and the stack is cut there |
| `HtmlSanitizer.HtmlParsing.ParseEndTag` | ak342m/axelor-web/src/main/webapp/lib/angular/angular-sanitize.js:297-314 | the closest element of the name and everything in it are ended; nothing when there is none |
| `HtmlSanitizer.HtmlParsing.CloseInlineElements` | ak342m/axelor-web/src/main/webapp/lib/angular/angular-sanitize.js:269-273 | each call of the loop ends exactly the innermost element, until it is not an inline one |
| `HtmlSanitizer.HtmlParsing.ParseStartTag` | ak342m/axelor-web/src/main/webapp/lib/angular/angular-sanitize.js:267-295 | implied end tags, then the element, pushed unless it is void or closes itself |
| `HtmlSanitizer.HtmlParsing.LeaveSpecial` | ak342m/axelor-web/src/main/webapp/lib/angular/angular-sanitize.js:244-256 | the script or style is cut out with its end tag, its text reported, and the element ended |
| `HtmlSanitizer.HtmlParsing.TakeToken` | ak342m/axelor-web/src/main/webapp/lib/angular/angular-sanitize.js:201-242 | one comment, end tag, start tag or text is taken off the front |
| `HtmlSanitizer.HtmlParsing.Parse` | ak342m/axelor-web/src/main/webapp/lib/angular/angular-sanitize.js:194-265 | the loop ends on every text, returning or throwing as the parse function says, with its events sent to the writer in order |
| `HtmlSanitizer.ClosingTop` | ak342m/axelor-web/src/main/webapp/lib/angular/angular-sanitize.js:270-272 | ending the element named like the innermost one pops that element alone |
| `HtmlSanitizer.HtmlSanitizeWriter.OnStart` | ak342m/axelor-web/src/main/webapp/lib/angular/angular-sanitize.js:359-379 | a start tag is written if allowed and not suppressed; a script or style starts suppression |
| `HtmlSanitizer.HtmlSanitizeWriter.OnEnd` | ak342m/axelor-web/src/main/webapp/lib/angular/angular-sanitize.js:380-390 | an end tag is written if allowed and not suppressed; the end of the suppressing element ends suppression |
| `HtmlSanitizer.HtmlSanitizeWriter.OnChars` | ak342m/axelor-web/src/main/webapp/lib/angular/angular-sanitize.js:391-395 | text is written encoded unless suppressed |
| `SanitizeWriter.WrittenIsSafe` | ak342m/axelor-web/src/main/webapp/lib/angular/angular-sanitize.js:355-397 | on every sequence of events, only allowed tags with permitted attributes and encoded text are written, never a script or style start tag |
| `SanitizeWriter.OutputIsWellNested` | ak342m/axelor-web/src/main/webapp/lib/angular/angular-sanitize.js:355-397 | for every html, whether or not it parses: at every point the written tags nest and the open ones are the visible elements open in the parser, if and only if no visible element opens or ends between a self-closing script or style and the next end of that name; this holds when none closes itself, and then all written tags are closed when the html parses |
| `SanitizeWriter.AlwaysInStepIff` | ak342m/axelor-web/src/main/webapp/lib/angular/angular-sanitize.js:355-397 | the same exact condition on every sequence of events that nests, whether or not the parser makes it |
| `SanitizeWriter.IgnoresExactlyUnlessUnarySpecial` | ak342m/axelor-web/src/main/webapp/lib/angular/angular-sanitize.js:361-363 | output is suppressed at every point exactly while a script or style is on top of the parser stack, if and only if none of them closes itself |
| `SanitizeWriter.StuckIgnore` | ak342m/axelor-web/src/main/webapp/lib/angular/angular-sanitize.js:361-363 | a self-closing script leaves the writer silent and an open element unclosed |
| `HtmlSanitizer.Sanitize` | ak342m/axelor-web/src/main/webapp/lib/angular/angular-sanitize.js:117-121 | the sanitized string is what the writer wrote for the events of the parser, and there is none exactly when the parser or the writer throws |
| `SanitizeWriter.ThrowsExactlyOnVisible` | ak342m/axelor-web/src/main/webapp/lib/angular/angular-sanitize.js:367 | with no self-closing script or style, the writer throws exactly when an allowed tag outside these elements has an attribute named hasOwnProperty, or one named forEach that is not empty |
| `SanitizeWriter.WhatBreaks` | ak342m/axelor-web/src/main/webapp/lib/angular/angular-sanitize.js:367 | an attribute named hasOwnProperty, or one named forEach that has a value, makes forEach throw, and no other |
| `HtmlSanitizer.TagsAreThoseWritten` | ak342m/axelor-web/src/main/webapp/lib/angular/angular-sanitize.js:364-378 | scanning the output for tags finds exactly those that the writer wrote: no text or attribute value can add one |
| `HtmlSanitizer.SanitizedTagsAreThoseWritten` | ak342m/axelor-web/src/main/webapp/lib/angular/angular-sanitize.js:37-42 | this holds of the output for every html that parses |
| `HtmlSanitizer.StartTagReadsBack` | ak342m/axelor-web/src/main/webapp/lib/angular/angular-sanitize.js:364-378 | who reads a written start tag finds its name, its attributes in order with the values encoded, and its slash |
| `HtmlSanitizer.PiecesInOrder` | ak342m/axelor-web/src/main/webapp/lib/angular/angular-sanitize.js:117-121 | the output is the pieces one after the other: an end tag with its slash and name, and text as it was encoded |
| `HtmlVocabulary.HtmlNamesArePlain` | ak342m/axelor-web/src/main/webapp/lib/angular/angular-sanitize.js:142-173 | every allowed name of the tables is of small letters and digits, as the results about the text ask |
| `HtmlVocabulary.NothingLoads` | ak342m/axelor-web/src/main/webapp/lib/angular/angular-sanitize.js:148-171 | no frame, plug-in, form element or style sheet is among the allowed elements |
| `HtmlVocabulary.NothingRuns` | ak342m/axelor-web/src/main/webapp/lib/angular/angular-sanitize.js:173-180 | no event handler and no style is among the allowed attributes |
| `ActionQueue.EventsTell` | ak342m/axelor-web/src/main/webapp/js/form/form.actions.js:293-319 | in every run, a call is rejected exactly when its action was rejected and resolved exactly when it was resolved, its body has started exactly when it was started, and its promise is in the shared array until it is taken out |
| `ActionQueue.NextByEvents` | ak342m/axelor-web/src/main/webapp/js/form/form.actions.js:293-319 | after every run exactly these events can follow, told by the events before: a call, the end of a delay, the start of a body whose promises are settled or one of them rejected, an await or the end of a body that waits for nothing, the removal of a settled promise |
| `ActionQueue.TwoBodiesOnlyAfterRejection` | ak342m/axelor-web/src/main/webapp/js/form/form.actions.js:293-319 | in every interleaving two bodies run at once only if a call that the later one waited for was rejected |
| `ActionQueue.OvertakesIff` | ak342m/axelor-web/src/main/webapp/js/form/form.actions.js:293-319 | in every interleaving, a call that waits while an earlier one is not settled can start its body if and only if a promise it waits for was rejected |
| `ActionQueue.AtMostOneBody` | ak342m/axelor-web/src/main/webapp/js/form/form.actions.js:293-319 | without rejections at most one body runs at a time |
| `ActionQueue.BodiesStartInCallOrder` | ak342m/axelor-web/src/main/webapp/js/form/form.actions.js:293-319 | without rejections bodies start in call order, none skipped |
| `ActionQueue.OldestProceeds` | ak342m/axelor-web/src/main/webapp/js/axelor.ng.js:63-86 | the oldest unsettled call can take its next step exactly when its body does not await an unsettled call |
| `ActionQueue.WaitsGoBack` | ak342m/axelor-web/src/main/webapp/js/form/form.actions.js:298-316 | waiting goes from later calls to earlier ones, so it has no cycle, except where a body awaits |
| `ActionQueue.EachStepCounts` | ak342m/axelor-web/src/main/webapp/js/form/form.actions.js:304-316 | every step other than a new call and a body starting to await another uses up one of finitely many steps left |
| `ActionQueue.AtRestAllIsDone` | ak342m/axelor-web/src/main/webapp/js/form/form.actions.js:306-315 | when nothing can happen but new calls and awaits, every call is settled and the shared array is empty exactly when no body is left awaiting an unsettled call |
| `ActionQueue.AwaitingItselfOrLaterNeverEnds` | ak342m/axelor-web/src/main/webapp/js/form/form.actions.js:293-319 | a body that awaits its own call or a later one waits for ever and no later call starts |
| `ActionQueue.AwaitingItselfOrLaterIsACycle` | ak342m/axelor-web/src/main/webapp/js/form/form.actions.js:298-302 | the two calls then wait for each other, or the one for itself |
| `ActionQueue.RejectionStartsTwo` | ak342m/axelor-web/src/main/webapp/js/axelor.ng.js:75-83 | there is a run in which a rejection starts two bodies at once |
| `ActionQueue.NestedAwaitFreezes` | ak342m/axelor-web/src/main/webapp/js/form/form.actions.js:304-316 | there is a run in which a body that awaits its own nested call freezes the queue |
| `ActionQueue.ActionScope.Handle` | ak342m/axelor-web/src/main/webapp/js/form/form.actions.js:293-319 | a call copies the shared array, then pushes its own promise |
| `ActionQueue.ActionScope.OnTimeout` | ak342m/axelor-web/src/main/webapp/js/axelor.ng.js:70-75 | the delay of one call ends, nothing else changes |
| `ActionQueue.ActionScope.OnAllSettled` | ak342m/axelor-web/src/main/webapp/js/form/form.actions.js:304-305 | the body of one call starts |
| `ActionQueue.ActionScope.OnActionDone` | ak342m/axelor-web/src/main/webapp/js/form/form.actions.js:314-315 | the promise of the call is settled as that of its action |
| `ActionQueue.ActionScope.OnDone` | ak342m/axelor-web/src/main/webapp/js/form/form.actions.js:306-313 | the promise is searched and spliced out, the others keep their order |
| `DataSources.DataSource.AcceptAll` | ak342m/axelor-web/src/main/webapp/js/axelor.data.js:824-837 | the records at hand are replaced and the page recounted |
| `DataSources.DataSource.Search` | ak342m/axelor-web/src/main/webapp/js/axelor.data.js:232-296 | the page shows the slice of the list at the offset, with no current record |
| `DataSources.DataSource.Next` | ak342m/axelor-web/src/main/webapp/js/axelor.data.js:750-756 | the slice one limit further on |
| `DataSources.DataSource.Prev` | ak342m/axelor-web/src/main/webapp/js/axelor.data.js:758-764 | the slice one limit back, not before the start |
| `DataSources.DataSource.NextItem` | ak342m/axelor-web/src/main/webapp/js/axelor.data.js:766-782 | the state and record of the function that the traversal theorems are about |
| `DataSources.DataSource.PrevItem` | ak342m/axelor-web/src/main/webapp/js/axelor.data.js:784-800 | likewise for going back |
| `DataSources.DataSource.FixPage` | ak342m/axelor-web/src/main/webapp/js/axelor.data.js:221-230 | likewise for correcting the page |
| `DataSources.DataSource.Accept` | ak342m/axelor-web/src/main/webapp/js/axelor.data.js:841-865 | one accepted record replaces the one of its id or is appended and becomes current |
| `DataSources.DataSource.VisitAll` | ak342m/axelor-web/src/main/webapp/js/axelor.data.js:766-782 | stepping with nextItem while there is a next record visits every record once, in order |
| `Paging.NextItemIsTheNext` | ak342m/axelor-web/src/main/webapp/js/axelor.data.js:766-782 | on every page, aligned or not, nextItem moves the global position by exactly one while there is a next record, which canNext tells, and delivers the list element there; aligned pages stay aligned |
| `Paging.PrevItemIsThePrevious` | ak342m/axelor-web/src/main/webapp/js/axelor.data.js:784-800 | on every page prevItem moves back by exactly one if and only if the record before is on the page or a whole page fits before it, and delivers it; otherwise it goes to the end of the first page |
| `Paging.PrevUndoesNext` | ak342m/axelor-web/src/main/webapp/js/axelor.data.js:766-800 | going forward and back restores page and record |
| `Paging.NextUndoesPrev` | ak342m/axelor-web/src/main/webapp/js/axelor.data.js:766-800 | going back and forward restores page and record if and only if going back moved by one |
| `Paging.PrevOnAlignedPages` | ak342m/axelor-web/src/main/webapp/js/axelor.data.js:784-800 | on an aligned page prevItem moves back by one exactly when canPrev says so, and the page stays aligned |
| `Paging.LastPageIsLast` | ak342m/axelor-web/src/main/webapp/js/axelor.data.js:224-226 | the corrected offset is a multiple of the limit with from < total <= from + limit, or 0 |
| `Paging.LastPageIsUnique` | ak342m/axelor-web/src/main/webapp/js/axelor.data.js:224-226 | there is only one such offset |
| `Paging.FixPageGoesToLastPage` | ak342m/axelor-web/src/main/webapp/js/axelor.data.js:221-230 | a page that fell off the end is replaced by the last page of the list, aligned, with to equal to total, and empty only when the list is |
| `Paging.AcceptOneKeepsOthers` | ak342m/axelor-web/src/main/webapp/js/axelor.data.js:841-865 | accepting one record keeps ids distinct, the other records as they are and the counts right; the record has the fields sent, and of its old ones those with a dot in the name that were not sent |
| `Paging.MultipleIsMod` | ak342m/axelor-web/src/main/webapp/js/axelor.data.js:224 | a multiple of the limit is what the remainder operator says |
| `NavServices.NavService.ClearFlags` | ak342m/axelor-web/src/main/webapp/js/axelor.nav.js:126 | every listed tab, and no other, loses its selected flag |
| `NavServices.NavService.OpenTab` | ak342m/axelor-web/src/main/webapp/js/axelor.nav.js:100-129 | the new state is that of the open function: a tab of the same action is reused, else the tab is listed, and it alone is flagged and selected |
| `NavServices.NavService.RemoveTab` | ak342m/axelor-web/src/main/webapp/js/axelor.nav.js:147-179 | the new state is that of the close function |
| `NavServices.NavService.CloseTab` | ak342m/axelor-web/src/main/webapp/js/axelor.nav.js:185-194 | a guarded tab is closed only after the user agrees |
| `NavServices.NavService.CloseTabs` | ak342m/axelor-web/src/main/webapp/js/axelor.nav.js:196-247 | the recursion over the selection ends in the state of the function that the theorems below are about |
| `NavServices.NavService.CloseTabOthers` | ak342m/axelor-web/src/main/webapp/js/axelor.nav.js:248-257 | likewise for closing the others |
| `NavTabs.OpenTabAddsAtMostOne` | ak342m/axelor-web/src/main/webapp/js/axelor.nav.js:96-129 | a tab is added at the asked end unless one of its action is listed; a popup changes no tab, flag or selection |
| `NavTabs.OpenTabConsistent` | ak342m/axelor-web/src/main/webapp/js/axelor.nav.js:100-129 | opening keeps the invariant and shows a tab of that action |
| `NavTabs.RemoveTabConsistent` | ak342m/axelor-web/src/main/webapp/js/axelor.nav.js:147-179 | closing a listed tab keeps the invariant, removes just that tab and leaves another selection alone |
| `NavTabs.CloseTabEffect` | ak342m/axelor-web/src/main/webapp/js/axelor.nav.js:185-194 | a guarded tab whose user refuses stays and nothing changes; in every other case the tab is gone from its list and the others keep their order |
| `NavTabs.LeavesIff` | ak342m/axelor-web/src/main/webapp/js/axelor.nav.js:185-262 | in a step a listed tab leaves the list exactly when the user closes it, alone or with the others, it may be closed, and the user agrees if it asks |
| `NavTabs.LeftByAStep` | ak342m/axelor-web/src/main/webapp/js/axelor.nav.js:185-262 | in every run a tab that has left the list was taken away by such a step |
| `NavTabs.ClosingSelectsTheNeighbour` | ak342m/axelor-web/src/main/webapp/js/axelor.nav.js:165-178 | closing the selected tab selects the one that takes its place, or the last one |
| `NavTabs.CloseTabsKeepsTheRest` | ak342m/axelor-web/src/main/webapp/js/axelor.nav.js:196-247 | whatever the answers: the list is the old one minus the confirmed tabs, in order, the invariant holds, and the tab shown is the last one asked about if it stays, else the first left, or without questions the one selected before |
| `NavTabs.CloseOthersKeepsCurrent` | ak342m/axelor-web/src/main/webapp/js/axelor.nav.js:248-257 | closing the others keeps the current tab, every tab that may not be closed and every guarded tab the user keeps, in order; the current tab is shown in the end if and only if the user was not asked, or agreed to the last question and the current tab comes first of those left |
| `NavTabs.TabsAreAlwaysConsistent` | ak342m/axelor-web/src/main/webapp/js/axelor.nav.js:100-257 | in every reachable state, with any answers: actions are distinct, nothing is selected exactly when there are no tabs, and otherwise the selected tab is listed and the only flagged one |
| `NavTabs.UnlistedCloseIff` | ak342m/axelor-web/src/main/webapp/js/axelor.nav.js:147-179 | closing a tab that is not listed keeps the invariant exactly when at most one tab is listed, or the tab is not flagged and the last one listed is not the selected one |
| `NavTabs.UnlistedCloseEffect` | ak342m/axelor-web/src/main/webapp/js/axelor.nav.js:149-178 | it takes the last listed tab out, and changes nothing else but flags and the selection of an empty list |
| `NavTabs.ClosingAnUnlistedTab` | ak342m/axelor-web/src/main/webapp/js/axelor.nav.js:149-153 | two states in which that removes the shown tab, one of which breaks the invariant |
| `TreeMoves.AcyclicIffGrounded` | ak342m/axelor-web/src/main/webapp/js/view/view.tree.js:589-598 | there is no cycle exactly when every way up ends, which is what lets isParent terminate |
| `TreeMoves.IsParentMeansAbove` | ak342m/axelor-web/src/main/webapp/js/view/view.tree.js:589-598 | isParent holds exactly of the proper ancestors of the target |
| `TreeMoves.MoveIsSafeIff` | ak342m/axelor-web/src/main/webapp/js/view/view.tree.js:607-610 | putting x under y keeps the relation free of cycles exactly when they differ and isParent is false |
| `TreeMoves.AncestorsAreParents` | ak342m/axelor-web/src/main/webapp/lib/jquery.treetable/js/jquery.treetable.js:42-50 | the table's list of ancestors holds exactly the rows of which isParent is true |
| `TreeMoves.DropIsSafeIff` | ak342m/axelor-web/src/main/webapp/js/view/view.tree.js:562-587 | a drop keeps the saved relation free of cycles, and equal to the table's, exactly when the row is not dropped on or below itself |
| `TreeMoves.AcceptedDropMoves` | ak342m/axelor-web/src/main/webapp/js/view/view.tree.js:562-587 | a drop that the isParent guard accepts gives that row, and no other, its new parent, in both relations |
| `TreeMoves.WhatIsDragged` | ak342m/axelor-web/src/main/webapp/js/view/view.tree.js:540-560 | which rows may be dragged and dropped on: those of draggable nodes, top rows and folders, or all where children are counted |
| `TreeMoves.LevelsOfRows` | ak342m/axelor-web/src/main/webapp/js/view/view.tree.js:80-107 | a loaded row is at the top, one level below its parent, or on the second level where children are counted, and no step changes the level of a row |
| `TreeMoves.GuardedRunsStayAcyclic` | ak342m/axelor-web/src/main/webapp/js/view/view.tree.js:562-613 | in trees that count children, every run of drops and loads from a tree whose saved relation is the table's keeps the two equal, and so free of cycles |
| `TreeMoves.ModelRunsStayAcyclicIff` | ak342m/axelor-web/src/main/webapp/js/view/view.tree.js:540-613 | in trees compared by model, every run from the empty tree keeps the saved relation free of cycles if and only if no node's draggable rows find a node on the same or a deeper level, other than the last, with the model of the level above them |
| `TreeMoves.SafeRunsAgree` | ak342m/axelor-web/src/main/webapp/js/view/view.tree.js:603-613 | when the models of all nodes but the last differ, every run keeps the saved relation equal to the table's as well |
| `TreeMoves.DeeperDropMakesCycle` | ak342m/axelor-web/src/main/webapp/js/view/view.tree.js:603-613 | otherwise a row can be dropped on one below itself, which the table refuses while the saved relation gets a cycle |
| `TreeMoves.SiblingsMakeCycle` | ak342m/axelor-web/src/main/webapp/js/view/view.tree.js:603-613 | or two rows under one parent can be dropped on each other |
| `TreeViews.TreeView.CollectAncestors` | ak342m/axelor-web/src/main/webapp/lib/jquery.treetable/js/jquery.treetable.js:42-50 | the loop collects the rows above, nearest first, and ends |
| `TreeViews.TreeView.OnDrop` | ak342m/axelor-web/src/main/webapp/js/view/view.tree.js:562-587 | the table moves the row under its own guard; the record gets its new parent all the same |
| `TreeViews.TreeView.Release` | ak342m/axelor-web/src/main/webapp/js/view/view.tree.js:600-615 | a release changes the tree only when the accept guard holds |
| `Dashboard.Parse` | ak342m/axelor-web/src/main/webapp/js/view/view.dashboard.js:66-89 | the loop over the items computes the packing |
| `Dashboard.PlaceItem` | ak342m/axelor-web/src/main/webapp/js/view/view.dashboard.js:72-86 | one item goes to the last row or starts a new one, and the column count follows |
| `Dashboard.RowsHoldTheItems` | ak342m/axelor-web/src/main/webapp/js/view/view.dashboard.js:66-89 | the rows joined are the items, in order |
| `Dashboard.RowsFitIff` | ak342m/axelor-web/src/main/webapp/js/view/view.dashboard.js:75-79 | for positive spans every row is at most twelve wide exactly when every item is |
| `Dashboard.EqualItemsFillRows` | ak342m/axelor-web/src/main/webapp/js/view/view.dashboard.js:73-86 | items of one size fill every row but the last with as many as fit into twelve columns, two when they give no size |
| `Dashboard.PackIsOptimal` | ak342m/axelor-web/src/main/webapp/js/view/view.dashboard.js:66-89 | no split of some items into rows of at most twelve that keeps their order has fewer rows; no items make one empty row |
| `Dashboard.PackIsGreedy` | ak342m/axelor-web/src/main/webapp/js/view/view.dashboard.js:75-79 | every row is in use and has no room for the first item of the next |
| `Dashboard.GreedyIsPack` | ak342m/axelor-web/src/main/webapp/js/view/view.dashboard.js:66-89 | every split of the items with that property is the packing |
| `GridScan.FindNextEditable` | ak342m/axelor-web/src/main/webapp/js/widget/widget.slickgrid.js:1428-1449 | the two loops find what Next says: the first editable column to the right, else the first from the left in the next row |
| `GridScan.FindPrevEditable` | ak342m/axelor-web/src/main/webapp/js/widget/widget.slickgrid.js:1451-1472 | the two loops find what Prev says |
| `GridScan.EditableUnlessReason` | ak342m/axelor-web/src/main/webapp/js/widget/widget.slickgrid.js:1405-1426 | a column is editable exactly when it holds neither the edit link nor a button nor a field of another record and is not read only, in the form if it is there, else by itself |
| `GridScan.NullIffNoneEditable` | ak342m/axelor-web/src/main/webapp/js/widget/widget.slickgrid.js:1428-1472 | there is no result exactly when no column is editable |
| `GridScan.NearestCell` | ak342m/axelor-web/src/main/webapp/js/widget/widget.slickgrid.js:1428-1472 | the result is the cyclically nearest editable column in its direction |
| `GridScan.PrevUndoesNext` | ak342m/axelor-web/src/main/webapp/js/widget/widget.slickgrid.js:1428-1472 | from an editable cell back after forth returns exactly when the row has data, is the first, or the scan does not start over |
| `GridScan.NextUndoesPrev` | ak342m/axelor-web/src/main/webapp/js/widget/widget.slickgrid.js:1428-1472 | forth after back returns exactly when the scan does not start over, or the row above has data, or there is no row above and the row has none |
| `GridScan.NextHasTheNextRank` | ak342m/axelor-web/src/main/webapp/js/widget/widget.slickgrid.js:1428-1449 | the next cell is the next one in row order if and only if the row has data or an editable column further on |
| `GridScan.TabVisitsAll` | ak342m/axelor-web/src/main/webapp/js/widget/widget.slickgrid.js:1428-1449 | tabbing from one editable cell to a later one visits every editable cell between them once |
| `SearchFilters.OnFieldChangeFits` | ak342m/axelor-web/src/main/webapp/js/widget/widget.search.js:128-142 | choosing a field makes a row that fits the field; its saved name can change later exactly for a selection over many records |
| `SearchFilters.ChosenRow` | ak342m/axelor-web/src/main/webapp/js/widget/widget.search.js:128-142 | what a row becomes when its field is chosen: a selection, or the type of the field, a string if it tells none, and the named field of its target if it leads to one record |
| `SearchFilters.LoadedFits` | ak342m/axelor-web/src/main/webapp/js/widget/widget.search.js:356-389 | loading makes rows that fit their fields and do not change name any more |
| `SearchFilters.LoadedRow` | ak342m/axelor-web/src/main/webapp/js/widget/widget.search.js:354-392 | the row of a saved criterion: the field up to the dot with its type and target, and operator and values as saved, but for is true and is false |
| `SearchFilters.PrepareIsWellSaved` | ak342m/axelor-web/src/main/webapp/js/widget/widget.search.js:410-468 | every criterion saved from rows of undotted fields can be read back to its field name |
| `SearchFilters.FalseRowFinds` | ak342m/axelor-web/src/main/webapp/js/widget/widget.search.js:441-456 | a row that asks for false finds exactly the records where the field is false or has no value |
| `SearchFilters.OtherRowFinds` | ak342m/axelor-web/src/main/webapp/js/widget/widget.search.js:424-462 | any other row asks its operator and values of its field, of the named field of its target or of the id of many; one that asks for true finds where it is true; a range has its second value |
| `SearchFilters.SavedTellsQuestions` | ak342m/axelor-web/src/main/webapp/js/widget/widget.search.js:418-465 | two rows are saved alike exactly when they ask the same of the same field, = true and the operator true being one question |
| `SearchFilters.SelectKeeps` | ak342m/axelor-web/src/main/webapp/js/widget/widget.search.js:348-393 | loading and saving again keeps every criterion up to the first one that holds others, each named after its field once more, but for those asking for false |
| `SearchFilters.SaveLoadSaveIff` | ak342m/axelor-web/src/main/webapp/js/widget/widget.search.js:348-468 | for rows of undotted fields: saving what was loaded gives the same criteria exactly when no saved row asks for false or is a selection over many records |
| `SearchFilters.NoRowDroppedIff` | ak342m/axelor-web/src/main/webapp/js/widget/widget.search.js:306-310 | addFilter drops no loaded row exactly when no criterion but the last holds others |
| `FilterForms.FilterForm.AddFilter` | ak342m/axelor-web/src/main/webapp/js/widget/widget.search.js:306-310 | a row is added only when the last one is complete |
| `FilterForms.FilterForm.Select` | ak342m/axelor-web/src/main/webapp/js/widget/widget.search.js:348-393 | the emptied form gets the rows of the criteria, one after the other |
| `FilterForms.FilterForm.PrepareFilter` | ak342m/axelor-web/src/main/webapp/js/widget/widget.search.js:410-470 | the loop collects the criteria of the complete rows |
| `FilterForms.FilterForm.SaveChooseSave` | ak342m/axelor-web/src/main/webapp/js/widget/widget.search.js:322-346 | a search saved, chosen and saved again is the same exactly under that condition |
| `Durations.ParseFormatted` | ak342m/axelor-web/src/main/webapp/js/form/form.input.datetime.js:486-538 | every number of seconds from zero on is read back, or its whole minutes where seconds are not shown; below zero the text is refused |
| `Durations.ReadExactlyDurations` | ak342m/axelor-web/src/main/webapp/js/form/form.input.datetime.js:508-538 | a text is read as a number exactly when it is two or three groups of digits with colons between them; any other text that is not empty is refused |
| `Durations.ShownParts` | ak342m/axelor-web/src/main/webapp/js/form/form.input.datetime.js:486-506 | the parts of the text are the hours on at least two or three digits, and the minutes and seconds on exactly two |
| `Durations.FormatParsed` | ak342m/axelor-web/src/main/webapp/js/form/form.input.datetime.js:486-538 | a text of this form is shown again after reading exactly when it does not stand for zero |
| `Durations.ShownAgainIff` | ak342m/axelor-web/src/main/webapp/js/form/form.input.datetime.js:486-538 | a text is shown again exactly as it was if and only if it is empty or canonical: hours on at least two or three digits with no needless zero, minutes below 60 on two digits, as many seconds as the field shows, and not all zero |
| `Durations.PaddedDecimal` | ak342m/axelor-web/src/main/webapp/js/form/form.input.datetime.js:495-497 | a padded number reads back as itself, whatever its length |
| `Durations.ParseDurationText` | ak342m/axelor-web/src/main/webapp/js/form/form.input.datetime.js:524-538 | hours, minutes and seconds of any size are read back as their sum |

## Left out

- Sockets, threads, files and the clock: input is a sequence of lines, a file is a string, and timers and answers of the
  user are steps or parameters. How the stream is cut into lines is not part of the model.
- Upper and lower case: ASCII letters only; the case rules of other scripts and locales are left out.
- Reply texts: only the codes are modelled, so what LIST prints and the argument of LIST are left out.
- SharedStore: clearMessages racing with addMessage is left out, as are getMessages and getMessage during an add.
- EmlStore.EMLMailStore.AddMessage: starts from an empty directory; scanning existing files, clearMessages, the character
  encoding of files and write errors are left out.
- HeaderFolding.StoredHeadersKeepOrder: one direction for the order at the end, because misplaced values can cancel each
  other (MailMessages.MisplacedValueCanBeRepaired); for the order after every line both directions are stated.
- MailDelivery.EveryMailIsStored: the header lines of a mail are not empty, since an empty line ends them; body lines hold
  no newline.
- ConcurrentDelivery.EveryClientsMailsAreAdded: clients that connect after the server has been stopped, or that fail, are
  left out; connections are queued in the order in which they are accepted.
- SmtpProtocol.CommandsIgnoreCase: letters outside ASCII that Java maps to ASCII ones are left out.
- HtmlNesting.EventsAreWellNested: the regular expressions are parameters that return a match of positive length with a
  name that is not empty, and entity decoding is a parameter; the expressions themselves are not modelled. Characters are
  Unicode scalar values: text with single halves of surrogate pairs, which JavaScript allows, is left out.
- HtmlParser.Vocabulary: of the names that JavaScript objects inherit, only the two in lower case can be tag names.
- The linky filter, and sanitizing twice.
- ActionQueue: waiting for pending requests is part of the end of the delay; the form of waitForActions that polls until
  no action is left, which handle does not use, is left out, as is what the actions do.
- DataSources.DataSource.Search: the list of the server does not change and its total is its length; searches that do not
  store their result, saving and removing records are left out.
- NavServices.NavService.CloseTabs: the dialogs are answered before other steps are taken, so the answers are a function
  of the tab; routes, view modes and titles are left out.
- NavTabs.TabsAreAlwaysConsistent: only listed tabs and popups are closed (NavTabs.UnlistedCloseIff says what else keeps
  the invariant).
- TreeMoves.GuardedRunsStayAcyclic: a row is never dropped on itself, which the drag and drop library refuses; every
  record is shown by one row; expanding and drawing rows are left out.
- TreeMoves.ModelRunsStayAcyclicIff: two nodes of one model whose second names no parent field, where the rows of the second
  are loaded under themselves although children are not counted, are left out.
- EntityEncoding.EncodeThenShow: named references other than the three that are written are not part of the decoder.
- Dashboard.PackIsOptimal: the CSS class of an item is left out.
- GridScan.FindNextEditable: whether a column is editable does not change during a scan.
- SearchFilters.SaveLoadSaveIff: dates are opaque values that loading leaves alone; field names without a dot, as those
  of a model are.
- Durations.ParseFormatted: whole numbers of any size; fractions and the rounding of large numbers are left out.
- Form widgets, charts, calendar, menus, login and the server's start and stop.
