# Whitelist watcher

A model of the whitelist watcher of the cluster master
(`src/watcher/whitelist_watcher.cpp`). The watcher is an actor. It
periodically reads a file of hostnames, one per line, and tells a subscriber (the
allocator) which agents may be offered. Its state is the last whitelist it computed,
an optional set of hostnames:

- `None`: no whitelist, every agent is accepted;
- `Some({})`: an empty whitelist, every agent is denied;
- `Some(S)`: only agents whose hostname is in `S` are accepted.

`initialize()` treats the path `"*"` as "no whitelist". It then never reads
a file, and it sends `None` to the subscriber only if the subscriber's
initial policy was restrictive. Any other path is polled by `watch()`, which:

1. reads the file named by the path with one leading `file://` removed;
2. keeps the previous whitelist if the read fails;
3. produces a deny-all whitelist if the file is empty;
4. otherwise collects the non-empty lines into a set;
5. sends the result to the subscriber only when it differs from the
   previous whitelist, then stores it.

Files:

- `optional.dfy`: module `Optional`, the `Option` type.
- `strings.dfy`: module `Strings`, the two string helpers the watcher uses.
  `RemovePrefix` drops one leading occurrence. `Tokenize` splits on a
  delimiter and discards empty pieces. The reference pair `Split`/`Join`
  is proved to round-trip in both directions.
- `whitelist_watcher.dfy`: module `Watcher`. It has the pure step functions
  `Poll` (the new whitelist) and `Notice` (what the subscriber is sent), the
  lemmas about them and about series of polls (`PollAll`, `NoticeAll`), and
  the class `WhitelistWatcher`. The class has the fields `path`,
  `watchInterval` and `lastWhitelist`, plus `notifications`, the log of
  everything sent to the subscriber. Its methods `Initialize` and `Watch`
  are proved against `Poll` and `Notice`. The ghost predicate `InSync()`
  says that the subscriber's current policy (the last whitelist it was
  sent, or its initial one) is `lastWhitelist`. `Watch` preserves it.

The file system is a parameter `fs: string -> ReadResult`, where
`ReadResult = ReadError(message) | ReadOk(content)` stands for the outcome
of reading a file. The subscriber callback is an append to
`notifications`.

Assumptions about the string library, whose code is not part of this
model: `strings::remove(s, prefix, PREFIX)` drops one leading occurrence
of `prefix` and otherwise returns `s` unchanged. `strings::tokenize(s, "\n")` returns the maximal
pieces of `s` that contain no `'\n'`, in order, with empty pieces left
out. Lines are taken verbatim: no trimming, and a `'\r'` stays part of the
hostname.

One behaviour of the code is kept as written. When the path is `"*"`,
`initialize()` sends `None` but does not set `lastWhitelist` to `None`.
No poll ever follows in that case, so the stale field is never read. The
model keeps the field unchanged (`Initialize`'s first ensures clause), and
states the subscriber's resulting policy through `SubscriberView()`.

## Model

| member | source | states |
|---|---|---|
| `Strings.RemovePrefix` | src/watcher/whitelist_watcher.cpp:81-82 | if `s` starts with the prefix, the result is what follows it (prefix + result == s); otherwise `s` is returned unchanged |
| `Strings.RemovePrefixOfPrepended` | src/watcher/whitelist_watcher.cpp:81-82 | only one occurrence is removed: removing the prefix from prefix + s gives s back, even when s itself starts with the prefix |
| `Strings.Split` | src/watcher/whitelist_watcher.cpp:92 | cutting the content at line breaks gives at least one piece, and no piece contains a line break |
| `Strings.JoinSplit` | src/watcher/whitelist_watcher.cpp:92 | the pieces glued back with line breaks give the original content: nothing is lost or invented |
| `Strings.SplitPrepend` | src/watcher/whitelist_watcher.cpp:92 | a line-break-free head is glued to the first piece of what follows it |
| `Strings.SplitJoin` | src/watcher/whitelist_watcher.cpp:92 | line-break-free lines joined with line breaks split back into exactly those lines, so the split is the content's only such decomposition |
| `Strings.NonEmpty` | src/watcher/whitelist_watcher.cpp:92 | a string is kept iff it is one of the pieces and is not empty; no more elements than the input |
| `Strings.Tokenize` | src/watcher/whitelist_watcher.cpp:92 | the tokens are exactly the non-empty pieces between line breaks; each token is non-empty and has no line break |
| `Watcher.WatchedFile` | src/watcher/whitelist_watcher.cpp:81-82 | the file read is the path minus one leading `file://` if the path starts with it, and the path unchanged otherwise (a `file://` elsewhere is kept) |
| `Watcher.WatchedFileOfUri` | src/watcher/whitelist_watcher.cpp:81-82 | for the URI `file://` + f the file read is exactly f |
| `Watcher.Poll` | src/watcher/whitelist_watcher.cpp:80-97 | a read error keeps the previous whitelist; an empty file yields the deny-all `Some({})`; any successful read yields `Some(S)` where a hostname is in S iff it is a non-empty line of the content |
| `Watcher.Notice` | src/watcher/whitelist_watcher.cpp:99-102 | the subscriber is sent at most one whitelist per poll, one exactly when the new whitelist differs from the previous one, and what it is sent is the new whitelist |
| `Watcher.EmptyFileDeniesAll` | src/watcher/whitelist_watcher.cpp:87-89 | an empty file admits no node, while no whitelist admits every node, so the empty file's whitelist is not `None` |
| `Watcher.BreaksHaveEmptyLines` | src/watcher/whitelist_watcher.cpp:92 | content made only of line breaks has only empty lines |
| `Watcher.BlankLinesDenyAll` | src/watcher/whitelist_watcher.cpp:87-96 | a non-empty file made only of line breaks also yields the deny-all whitelist `Some({})` |
| `Watcher.HostnamesAreLines` | src/watcher/whitelist_watcher.cpp:91-96 | a file written as some lines yields exactly the set of its non-empty lines, taken verbatim |
| `Watcher.LineOrderAndRepeatsIrrelevant` | src/watcher/whitelist_watcher.cpp:91-96 | two files whose lines are the same up to order and repetition yield the same whitelist |
| `Watcher.PollIdempotent` | src/watcher/whitelist_watcher.cpp:99-105 | polling the same read outcome again changes nothing and sends nothing |
| `Watcher.NoticeAllEndsInSync` | src/watcher/whitelist_watcher.cpp:99-106 | after any series of polls the last whitelist sent is the current whitelist; if none was sent, the whitelist is the starting one |
| `Watcher.NoticeAllNeverRepeats` | src/watcher/whitelist_watcher.cpp:99-106 | over any series of polls the first whitelist sent differs from the starting one, and each one sent differs from the one before it |
| `Watcher.CollectHostnames` | src/watcher/whitelist_watcher.cpp:91-95 | inserting the lines one by one into a set gives exactly the set of the lines |
| `Watcher.WhitelistWatcher.constructor` | src/watcher/whitelist_watcher.cpp:44-53 | the watcher stores its path and interval, its last whitelist is the initial one, nothing has been sent, and it is in sync with the subscriber |
| `Watcher.WhitelistWatcher.Initialize` | src/watcher/whitelist_watcher.cpp:56-71 | with path `"*"`: no file is read, the whitelist field is unchanged, and exactly one `None` is sent iff the last whitelist was `Some`, leaving the subscriber accepting all nodes; with any other path: one poll as `Watch` |
| `Watcher.WhitelistWatcher.Watch` | src/watcher/whitelist_watcher.cpp:74-107 | reads the path with `file://` stripped; the new last whitelist is `Poll` of the old one and the read outcome; the log grows by `Notice` (at most one entry, present iff the whitelist changed); the subscriber stays in sync |

## Left out

- The rescheduling of `watch()` after `watchInterval` (line 106) is timer plumbing. One call of `Watch` is one poll. `PollAll` and `NoticeAll` describe a series of polls.
- Reading the file (`os::read`) is a parameter `fs` giving each path's read outcome. Which errors can occur is not modelled. Neither is a file changing during the read, which the source notes as an open concern.
- Logging (`VLOG`, `LOG`) and the generation of the actor's process ID (line 49) have no effect on the watcher's state.
- The subscriber callback is a function in the source. Here it is an append to `notifications`, so what the subscriber does with a whitelist is not modelled.
- `hashset<string>` becomes Dafny's `set<string>`. Hashing and iteration order are not modelled, because only membership and equality are observed.
- The string library's own code is not part of this model. `RemovePrefix` and `Tokenize` model the behaviour assumed above.
- src/tests/master_tests.cpp and src/tests/state_tests.cpp test the master, the allocator and the storage backends. Their code is not part of this model.
