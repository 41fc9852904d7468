/**
 The two string helpers the whitelist watcher relies on: removal of a
 leading prefix and tokenization of the file contents into lines.

 Both come from a utility library that is not part of this model; their
 behaviour is taken to be:
 - removing a prefix drops ONE leading occurrence of it, and leaves a
   string that does not start with it unchanged;
 - tokenizing on a delimiter yields the maximal delimiter-free pieces of
   the string, in order, with the empty pieces discarded.

 `Split` and `Join` are the reference definitions: `Split` cuts a string at
 every delimiter (keeping empty pieces), `Join` glues pieces back together,
 and the two are proved inverse to each other.
 */
module Strings {

  /** `s` with one leading occurrence of `prefix` removed, if it has one. */
  function RemovePrefix(s: string, prefix: string): (r: string)
    ensures prefix <= s ==> prefix + r == s
    ensures !(prefix <= s) ==> r == s
  {
    if prefix <= s then s[|prefix|..] else s
  }

  /** Removing a prefix that was just prepended gives back the original,
      even when that original starts with the prefix itself. */
  lemma RemovePrefixOfPrepended(prefix: string, s: string)
    ensures RemovePrefix(prefix + s, prefix) == s
  {
  }

  /** Cuts `s` at every occurrence of `d`; empty pieces are kept, so a
      string with n delimiters has n + 1 pieces. */
  function Split(s: string, d: char): (pieces: seq<string>)
    ensures |pieces| >= 1
    ensures forall p :: p in pieces ==> d !in p
    decreases |s|
  {
    if s == [] then [[]]
    else
      var rest := Split(s[1..], d);
      if s[0] == d then [[]] + rest
      else [[s[0]] + rest[0]] + rest[1..]
  }

  /** Glues `pieces` together with one `d` between neighbours. */
  function Join(pieces: seq<string>, d: char): string
    decreases |pieces|
  {
    if pieces == [] then []
    else if |pieces| == 1 then pieces[0]
    else pieces[0] + [d] + Join(pieces[1..], d)
  }

  /** Joining the pieces of a split gives back the string. */
  lemma {:induction false} JoinSplit(s: string, d: char)
    ensures Join(Split(s, d), d) == s
    decreases |s|
  {
    if s != [] {
      var rest := Split(s[1..], d);
      JoinSplit(s[1..], d);
      if s[0] == d {
        assert Split(s, d) == [[]] + rest;
        assert Join([[]] + rest, d) == [] + [d] + Join(rest, d);
        assert [d] + s[1..] == s;
      } else {
        var pieces := [[s[0]] + rest[0]] + rest[1..];
        assert Split(s, d) == pieces;
        if |rest| == 1 {
          assert Join(pieces, d) == [s[0]] + rest[0];
          assert [s[0]] + s[1..] == s;
        } else {
          assert pieces[1..] == rest[1..];
          assert Join(pieces, d) == [s[0]] + rest[0] + [d] + Join(rest[1..], d);
          assert Join(rest, d) == rest[0] + [d] + Join(rest[1..], d);
          assert [s[0]] + s[1..] == s;
        }
      }
    }
  }

  /** A delimiter-free head does not create any cut of its own: it is glued
      to the first piece of what follows. */
  lemma {:induction false} SplitPrepend(p: string, t: string, d: char)
    requires d !in p
    ensures Split(p + t, d) == [p + Split(t, d)[0]] + Split(t, d)[1..]
    decreases |p|
  {
    if p == [] {
      var pieces := Split(t, d);
      assert p + t == t && p + pieces[0] == pieces[0];
      assert pieces == [pieces[0]] + pieces[1..];
    } else {
      var s := p + t;
      assert s[0] == p[0] && s[1..] == p[1..] + t;
      SplitPrepend(p[1..], t, d);
      assert [p[0]] + (p[1..] + Split(t, d)[0]) == p + Split(t, d)[0];
    }
  }

  /** Splitting a join of delimiter-free pieces gives back the pieces:
      the pieces of a string are its only delimiter-free decomposition. */
  lemma {:induction false} SplitJoin(pieces: seq<string>, d: char)
    requires |pieces| >= 1
    requires forall p :: p in pieces ==> d !in p
    ensures Split(Join(pieces, d), d) == pieces
    decreases |pieces|
  {
    var p := pieces[0];
    if |pieces| == 1 {
      SplitPrepend(p, [], d);
      assert p + [] == p;
    } else {
      var tail := pieces[1..];
      assert forall q :: q in tail ==> q in pieces;
      SplitJoin(tail, d);
      var t := [d] + Join(tail, d);
      assert Join(pieces, d) == p + t;
      assert t[0] == d && t[1..] == Join(tail, d);
      assert Split(t, d) == [[]] + tail;
      SplitPrepend(p, t, d);
      assert p + [] == p;
      assert [p] + tail == pieces;
    }
  }

  /** The non-empty members of `pieces`, in order. */
  function NonEmpty(pieces: seq<string>): (r: seq<string>)
    ensures |r| <= |pieces|
    ensures forall t :: t in r <==> t in pieces && t != []
    decreases |pieces|
  {
    if pieces == [] then []
    else if pieces[0] == [] then NonEmpty(pieces[1..])
    else [pieces[0]] + NonEmpty(pieces[1..])
  }

  /** The tokens of `s`: its non-empty `d`-free pieces. */
  function Tokenize(s: string, d: char): (tokens: seq<string>)
    ensures forall t :: t in tokens ==> t != [] && d !in t
    ensures forall t :: t in tokens <==> t in Split(s, d) && t != []
  {
    NonEmpty(Split(s, d))
  }

}
