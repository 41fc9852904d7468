/**
 The whitelist watcher: an actor that polls a file of hostnames and tells
 its subscriber whenever the set of admitted nodes changes.

 A whitelist is an optional set of hostnames with three meanings:
 - `None`: there is no whitelist, every node is accepted;
 - `Some({})`: the whitelist is empty, every node is denied;
 - `Some(S)`: only the nodes whose hostname is in `S` are accepted.

 The file system is a parameter (`FileSystem`), and the subscriber
 callback is an appended log of the whitelists it was sent.
 */
module Watcher {
  import opened Optional
  import opened Strings

  type Whitelist = Option<set<string>>

  /** The outcome of reading a file. */
  datatype ReadResult = ReadError(message: string) | ReadOk(content: string)

  /** A snapshot of the files the watcher can read, by path. */
  type FileSystem = string -> ReadResult

  /** The path that means "no whitelist file: accept all nodes". */
  const AcceptAllPath: string := "*"

  /** The URI scheme that may precede the whitelist file's path. */
  const FileScheme: string := "file://"

  /** Separates the hostnames in the whitelist file. */
  const LineBreak: char := '\n'

  /** Whether a node called `host` is accepted under `w`. */
  predicate Admits(w: Whitelist, host: string)
  {
    match w
    case None => true
    case Some(hosts) => host in hosts
  }

  /** The file the watcher reads for a configured `path`. */
  function WatchedFile(path: string): (file: string)
    ensures FileScheme <= path ==> FileScheme + file == path
    ensures !(FileScheme <= path) ==> file == path
  {
    RemovePrefix(path, FileScheme)
  }

  /** A `file://` URI names the file after the scheme; if that path starts
      with the scheme again, the second occurrence is kept. */
  lemma WatchedFileOfUri(file: string)
    ensures WatchedFile(FileScheme + file) == file
  {
  }

  /** `host` is one of the lines of `content`: a non-empty piece between
      two line breaks (or the start or end of the file), taken verbatim. */
  predicate IsHostLine(content: string, host: string)
  {
    host != [] && host in Split(content, LineBreak)
  }

  /** The whitelist one poll computes from the previous whitelist and
      the outcome of reading the file. */
  function Poll(last: Whitelist, read: ReadResult): (w: Whitelist)
    ensures read.ReadError? ==> w == last
    ensures read == ReadOk([]) ==> w == Some({})
    ensures read.ReadOk? ==> w.Some?
    ensures read.ReadOk? ==> forall h :: h in w.value <==> IsHostLine(read.content, h)
  {
    match read
    case ReadError(_) => last
    case ReadOk(content) =>
      if content == [] then Some({})
      else Some(set h | h in Tokenize(content, LineBreak))
  }

  /** What one poll sends to the subscriber: the new whitelist, if and
      only if it differs from the previous one. */
  function Notice(last: Whitelist, read: ReadResult): (sent: seq<Whitelist>)
    ensures |sent| <= 1
    ensures sent != [] <==> Poll(last, read) != last
    ensures forall k :: 0 <= k < |sent| ==> sent[k] == Poll(last, read)
  {
    var w := Poll(last, read);
    if w != last then [w] else []
  }

  /** The empty file denies every node, whereas no whitelist admits every
      node: the two are different policies. */
  lemma EmptyFileDeniesAll(last: Whitelist, host: string)
    ensures !Admits(Poll(last, ReadOk([])), host)
    ensures Admits(None, host)
    ensures Poll(last, ReadOk([])) != None
  {
  }

  /** A string made only of line breaks has only empty lines. */
  lemma {:induction false} BreaksHaveEmptyLines(content: string)
    requires forall i :: 0 <= i < |content| ==> content[i] == LineBreak
    ensures forall p :: p in Split(content, LineBreak) ==> p == []
    decreases |content|
  {
    if content != [] {
      BreaksHaveEmptyLines(content[1..]);
    }
  }

  /** A file holding only line breaks is not empty, but has no hostnames
      either: it denies every node, like the empty file. */
  lemma BlankLinesDenyAll(last: Whitelist, content: string)
    requires forall i :: 0 <= i < |content| ==> content[i] == LineBreak
    ensures Poll(last, ReadOk(content)) == Some({})
  {
    BreaksHaveEmptyLines(content);
    var w := Poll(last, ReadOk(content));
    assert w.value == {};
  }

  /** A file written as the lines `lines` admits exactly the non-empty
      ones: hostnames are the lines verbatim. */
  lemma {:induction false} HostnamesAreLines(last: Whitelist, lines: seq<string>)
    requires |lines| >= 1
    requires forall l :: l in lines ==> LineBreak !in l
    ensures Poll(last, ReadOk(Join(lines, LineBreak))) == Some(set l | l in lines && l != [])
  {
    SplitJoin(lines, LineBreak);
    var w := Poll(last, ReadOk(Join(lines, LineBreak)));
    assert w.value == set l | l in lines && l != [];
  }

  /** Reordering or repeating the lines of the file does not change the
      whitelist. */
  lemma {:induction false} LineOrderAndRepeatsIrrelevant(last: Whitelist, lines1: seq<string>, lines2: seq<string>)
    requires |lines1| >= 1 && |lines2| >= 1
    requires forall l :: l in lines1 ==> LineBreak !in l
    requires forall l :: l in lines2 ==> LineBreak !in l
    requires forall l :: l in lines1 <==> l in lines2
    ensures Poll(last, ReadOk(Join(lines1, LineBreak))) == Poll(last, ReadOk(Join(lines2, LineBreak)))
  {
    HostnamesAreLines(last, lines1);
    HostnamesAreLines(last, lines2);
    assert (set l | l in lines1 && l != []) == (set l | l in lines2 && l != []);
  }

  /** Polling the same file twice in a row notifies at most once: the
      second poll finds nothing new. */
  lemma PollIdempotent(last: Whitelist, read: ReadResult)
    ensures Poll(Poll(last, read), read) == Poll(last, read)
    ensures Notice(Poll(last, read), read) == []
  {
  }

  /** The whitelist after a series of polls, one per read. */
  function PollAll(last: Whitelist, outcomes: seq<ReadResult>): Whitelist
    decreases |outcomes|
  {
    if outcomes == [] then last else PollAll(Poll(last, outcomes[0]), outcomes[1..])
  }

  /** Everything a series of polls sends to the subscriber, in order. */
  function NoticeAll(last: Whitelist, outcomes: seq<ReadResult>): seq<Whitelist>
    decreases |outcomes|
  {
    if outcomes == [] then [] else Notice(last, outcomes[0]) + NoticeAll(Poll(last, outcomes[0]), outcomes[1..])
  }

  /** After any series of polls, the last notification is the watcher's
      current whitelist; with no notification at all, the whitelist is the
      one it started with. */
  lemma {:induction false} NoticeAllEndsInSync(last: Whitelist, outcomes: seq<ReadResult>)
    ensures NoticeAll(last, outcomes) == [] ==> PollAll(last, outcomes) == last
    ensures NoticeAll(last, outcomes) != [] ==>
      NoticeAll(last, outcomes)[|NoticeAll(last, outcomes)| - 1] == PollAll(last, outcomes)
    decreases |outcomes|
  {
    if outcomes != [] {
      var w := Poll(last, outcomes[0]);
      var rest := NoticeAll(w, outcomes[1..]);
      NoticeAllEndsInSync(w, outcomes[1..]);
      assert NoticeAll(last, outcomes) == Notice(last, outcomes[0]) + rest;
    }
  }

  /** Over any series of polls, the subscriber is never sent the whitelist
      it already has: the first notification differs from the starting
      whitelist, and each one differs from the one before it. */
  lemma {:induction false} NoticeAllNeverRepeats(last: Whitelist, outcomes: seq<ReadResult>)
    ensures NoticeAll(last, outcomes) != [] ==> NoticeAll(last, outcomes)[0] != last
    ensures forall k :: 0 < k < |NoticeAll(last, outcomes)| ==>
      NoticeAll(last, outcomes)[k] != NoticeAll(last, outcomes)[k - 1]
    decreases |outcomes|
  {
    if outcomes != [] {
      var w := Poll(last, outcomes[0]);
      var rest := NoticeAll(w, outcomes[1..]);
      NoticeAllNeverRepeats(w, outcomes[1..]);
      var sent := NoticeAll(last, outcomes);
      assert sent == Notice(last, outcomes[0]) + rest;
      if w != last {
        assert sent == [w] + rest;
        forall k | 0 < k < |sent| ensures sent[k] != sent[k - 1] {
          if k > 1 {
            assert sent[k] == rest[k - 1] && sent[k - 1] == rest[k - 2];
          }
        }
      }
    }
  }

  /** Collects a sequence of hostnames into a set, one insertion at a time. */
  method CollectHostnames(lines: seq<string>) returns (hostnames: set<string>)
    ensures forall h :: h in hostnames <==> h in lines
  {
    hostnames := {};
    for i := 0 to |lines|
      invariant forall h :: h in hostnames <==> h in lines[..i]
    {
      assert lines[..i + 1] == lines[..i] + [lines[i]];
      hostnames := hostnames + {lines[i]};
    }
    assert lines[..|lines|] == lines;
  }

  class WhitelistWatcher {
    /** The whitelist file's path or URI, or `AcceptAllPath`. */
    const path: string
    /** The delay between two polls; only the rescheduling uses it. */
    const watchInterval: nat
    /** The whitelist the subscriber had before the watcher started. */
    ghost const initialWhitelist: Whitelist

    /** The whitelist most recently computed. */
    var lastWhitelist: Whitelist
    /** Every whitelist sent to the subscriber, oldest first. */
    var notifications: seq<Whitelist>

    /** The policy the subscriber has: the last whitelist it was sent, or
        the one it started with. */
    ghost function SubscriberView(): Whitelist
      reads this
    {
      if notifications == [] then initialWhitelist else notifications[|notifications| - 1]
    }

    /** The subscriber's policy is the watcher's current whitelist. */
    ghost predicate InSync()
      reads this
    {
      SubscriberView() == lastWhitelist
    }

    constructor (path: string, watchInterval: nat, initialWhitelist: Whitelist)
      ensures this.path == path && this.watchInterval == watchInterval
      ensures this.initialWhitelist == initialWhitelist
      ensures lastWhitelist == initialWhitelist
      ensures notifications == []
      ensures InSync()
    {
      this.path := path;
      this.watchInterval := watchInterval;
      this.initialWhitelist := initialWhitelist;
      lastWhitelist := initialWhitelist;
      notifications := [];
    }

    /** Starts the watcher. With `AcceptAllPath` it never reads a file: it
        tells the subscriber once that there is no whitelist, unless the
        subscriber's policy was already permissive. Otherwise it polls. */
    method Initialize(fs: FileSystem)
      modifies this
      ensures path == AcceptAllPath ==> lastWhitelist == old(lastWhitelist)
      ensures path == AcceptAllPath ==>
        notifications == old(notifications) + (if old(lastWhitelist).Some? then [None] else [])
      ensures path != AcceptAllPath ==>
        lastWhitelist == Poll(old(lastWhitelist), fs(WatchedFile(path)))
      ensures path != AcceptAllPath ==>
        notifications == old(notifications) + Notice(old(lastWhitelist), fs(WatchedFile(path)))
      ensures old(InSync()) ==> SubscriberView() == (if path == AcceptAllPath then None else lastWhitelist)
    {
      if path == AcceptAllPath {
        if lastWhitelist.Some? {
          notifications := notifications + [None];
        }
      } else {
        Watch(fs);
      }
    }

    /** One poll: reads the whitelist file, computes the new whitelist,
        sends it to the subscriber if it changed and keeps it. */
    method Watch(fs: FileSystem)
      modifies this
      ensures lastWhitelist == Poll(old(lastWhitelist), fs(WatchedFile(path)))
      ensures notifications == old(notifications) + Notice(old(lastWhitelist), fs(WatchedFile(path)))
      ensures |notifications| <= |old(notifications)| + 1
      ensures |notifications| == |old(notifications)| + 1 <==> lastWhitelist != old(lastWhitelist)
      ensures old(InSync()) ==> InSync()
    {
      var whitelist: Whitelist;
      var read := fs(RemovePrefix(path, FileScheme));
      if read.ReadError? {
        whitelist := lastWhitelist;
      } else if read.content == [] {
        whitelist := Some({});
      } else {
        var lines := Tokenize(read.content, LineBreak);
        var hostnames := CollectHostnames(lines);
        assert hostnames == set h | h in lines;
        whitelist := Some(hostnames);
      }

      if whitelist != lastWhitelist {
        notifications := notifications + [whitelist];
      }

      lastWhitelist := whitelist;
    }
  }

}
