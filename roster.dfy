/** The presence roster both client title bars keep: the avatar of each connected
    collaborator, keyed by connection id, and the initials shown on it. */
module Roster {
  import opened Text
  import opened Actions

  /** `addUser` takes one operation or an array of them. */
  datatype OneOrMany = One(info: ActionInfo) | Many(infos: seq<ActionInfo>)

  /** A single operation is treated as a one-element list. */
  function AsList(x: OneOrMany): seq<ActionInfo> {
    match x
    case One(info) => [info]
    case Many(infos) => infos
  }

  /** An avatar element: the initials it shows and the user name in its tooltip. */
  class Avatar {
    const initials: string
    const title: string

    constructor (initials: string, title: string)
      ensures this.initials == initials && this.title == title
    {
      this.initials := initials;
      this.title := title;
    }
  }

  // ---------------------------------------------------------------- initials

  /** The first character of a non-empty piece; nothing for an empty one. */
  function FirstChar(piece: string): string {
    if |piece| > 0 then [piece[0]] else ""
  }

  /** The first characters of the non-empty pieces, in order. */
  function InitialsOf(pieces: seq<string>): string {
    if pieces == [] then "" else InitialsOf(pieces[..|pieces| - 1]) + FirstChar(pieces[|pieces| - 1])
  }

  /** `constructInitial`: split the name at spaces and keep each piece's first character. */
  function Initials(name: string): string {
    InitialsOf(Split(name, ' '))
  }

  /** An independent reading of the initials: one left-to-right scan keeping every
      non-space character that follows a space or the start of the name. */
  function WordStarts(s: string, afterSpace: bool): (r: string)
    ensures |r| <= |s|
    ensures forall i :: 0 <= i < |r| ==> r[i] != ' '
    ensures afterSpace && |s| > 0 && s[0] != ' ' ==> |r| > 0 && r[0] == s[0]
  {
    if s == [] then ""
    else (if afterSpace && s[0] != ' ' then [s[0]] else "") + WordStarts(s[1..], s[0] == ' ')
  }

  /** Collecting initials piece by piece distributes over concatenation. */
  lemma {:induction false} InitialsOfAppend(a: seq<string>, b: seq<string>)
    ensures InitialsOf(a + b) == InitialsOf(a) + InitialsOf(b)
    decreases |b|
  {
    if b == [] {
      assert a + b == a;
    } else {
      var b' := b[..|b| - 1];
      InitialsOfAppend(a, b');
      assert (a + b)[..|a + b| - 1] == a + b';
      assert (a + b)[|a + b| - 1] == b[|b| - 1];
    }
  }

  /** The split-based initials and the scan agree: on all pieces from the start of the
      name, and on the pieces after the first from inside a word. */
  lemma {:induction false} InitialsAreWordStarts(s: string)
    ensures InitialsOf(Split(s, ' ')) == WordStarts(s, true)
    ensures InitialsOf(Split(s, ' ')[1..]) == WordStarts(s, false)
    decreases |s|
  {
    if s != [] {
      var rest := Split(s[1..], ' ');
      InitialsAreWordStarts(s[1..]);
      if s[0] == ' ' {
        assert Split(s, ' ') == [""] + rest;
        assert Split(s, ' ')[1..] == rest;
        InitialsOfAppend([""], rest);
        assert InitialsOf([""]) == "" by {
          assert [""][..0] == [];
        }
      } else {
        var head := [s[0]] + rest[0];
        assert Split(s, ' ') == [head] + rest[1..];
        assert Split(s, ' ')[1..] == rest[1..];
        InitialsOfAppend([head], rest[1..]);
        assert InitialsOf([head]) == [s[0]] by {
          assert [head][..0] == [];
        }
      }
    }
  }

  /** What the initials are: no longer than the name, free of spaces, starting with the
      name's first character when that is not a space; an empty name has none. */
  lemma InitialsShape(name: string)
    ensures |Initials(name)| <= |name|
    ensures Free(Initials(name), ' ')
    ensures |name| > 0 && name[0] != ' ' ==> |Initials(name)| > 0 && Initials(name)[0] == name[0]
    ensures name == "" ==> Initials(name) == ""
  {
    InitialsAreWordStarts(name);
  }

  /** A word without spaces contributes its first character, when it starts a word, and
      nothing else. */
  lemma {:induction false} WordStartsOfWord(w: string, rest: string, afterSpace: bool)
    requires |w| > 0 && Free(w, ' ')
    ensures WordStarts(w + rest, afterSpace) == (if afterSpace then [w[0]] else "") + WordStarts(rest, false)
    decreases |w|
  {
    assert (w + rest)[1..] == w[1..] + rest;
    if |w| > 1 {
      WordStartsOfWord(w[1..], rest, false);
    }
  }

  /** Two words separated by one space give their two first characters. */
  lemma TwoWordInitials(first: string, last: string)
    requires |first| > 0 && Free(first, ' ') && |last| > 0 && Free(last, ' ')
    ensures Initials(first + " " + last) == [first[0], last[0]]
  {
    var tail := " " + last;
    var name := first + tail;
    assert first + " " + last == name;
    InitialsAreWordStarts(name);
    WordStartsOfWord(first, tail, true);
    assert tail[1..] == last + "";
    WordStartsOfWord(last, "", true);
    var lastStart := WordStarts(last + "", true);
    assert lastStart == [last[0]];
    assert WordStarts(tail, false) == lastStart;
    assert WordStarts(name, true) == [first[0]] + lastStart;
  }

  /** The documented example: "John Doe" gives "JD". */
  lemma JohnDoe()
    ensures Initials("John Doe") == "JD"
  {
    TwoWordInitials("John", "Doe");
    assert "John" + " " + "Doe" == "John Doe";
  }

  /** The initials loop of `constructInitial`. */
  method ConstructInitial(authorName: string) returns (initials: string)
    ensures initials == Initials(authorName)
  {
    var splittedName := Split(authorName, ' ');
    initials := "";
    for i := 0 to |splittedName|
      invariant initials == InitialsOf(splittedName[..i])
    {
      assert splittedName[..i + 1][..i] == splittedName[..i];
      if |splittedName[i]| > 0 {
        initials := initials + [splittedName[i][0]];
      }
    }
    assert splittedName[..|splittedName|] == splittedName;
  }

  // ---------------------------------------------------------------- who joins the roster

  /** The connection ids of a list of operations, in order. */
  function ConnectionIds(s: seq<ActionInfo>): (r: seq<string>)
    ensures |r| == |s|
    ensures forall i :: 0 <= i < |s| ==> r[i] == s[i].connectionId
  {
    if s == [] then [] else ConnectionIds(s[..|s| - 1]) + [s[|s| - 1].connectionId]
  }

  /** The entries of a batch `addUser` gives an avatar, in order: an entry is skipped
      when its connection id is already in the map (from before or from earlier in the
      batch) or its user is the author. */
  function Accepted(entries: seq<ActionInfo>, known: set<string>, author: string): seq<ActionInfo> {
    if entries == [] then []
    else
      var init := Accepted(entries[..|entries| - 1], known, author);
      var e := entries[|entries| - 1];
      if e.connectionId in known || e.connectionId in ConnectionIds(init) || e.currentUser == author then init
      else init + [e]
  }

  /** Entry `k` is a newcomer: its id was not known, its user is not the author, and every
      earlier entry with the same id belonged to the author. */
  predicate IsNewcomer(entries: seq<ActionInfo>, k: nat, known: set<string>, author: string)
    requires k < |entries|
  {
    && entries[k].connectionId !in known
    && entries[k].currentUser != author
    && forall j :: 0 <= j < k && entries[j].connectionId == entries[k].connectionId ==>
         entries[j].currentUser == author
  }

  /** The newcomers among the first `n` entries, in order. */
  function Newcomers(entries: seq<ActionInfo>, n: nat, known: set<string>, author: string): seq<ActionInfo>
    requires n <= |entries|
  {
    if n == 0 then []
    else Newcomers(entries, n - 1, known, author) + (if IsNewcomer(entries, n - 1, known, author) then [entries[n - 1]] else [])
  }

  /** Whether an entry is a newcomer depends only on the entries up to it. */
  lemma {:induction false} NewcomersOfPrefix(entries: seq<ActionInfo>, m: nat, n: nat, known: set<string>, author: string)
    requires n <= m <= |entries|
    ensures Newcomers(entries[..m], n, known, author) == Newcomers(entries, n, known, author)
    decreases n
  {
    if n > 0 {
      NewcomersOfPrefix(entries, m, n - 1, known, author);
      assert IsNewcomer(entries[..m], n - 1, known, author) == IsNewcomer(entries, n - 1, known, author) by {
        assert forall j :: 0 <= j < n ==> entries[..m][j] == entries[j];
      }
    }
  }

  /** Every id among the newcomers' ids is carried by some newcomer. */
  lemma {:induction false} NewcomerIdsSound(entries: seq<ActionInfo>, n: nat, known: set<string>, author: string, id: string)
    requires n <= |entries|
    requires id in ConnectionIds(Newcomers(entries, n, known, author))
    ensures exists k :: 0 <= k < n && IsNewcomer(entries, k, known, author) && entries[k].connectionId == id
    decreases n
  {
    var prev := Newcomers(entries, n - 1, known, author);
    var cur := Newcomers(entries, n, known, author);
    assert |prev| <= |cur| && cur[..|prev|] == prev;
    var i :| 0 <= i < |cur| && ConnectionIds(cur)[i] == id;
    if i < |prev| {
      assert ConnectionIds(prev)[i] == id;
      NewcomerIdsSound(entries, n - 1, known, author, id);
    } else {
      assert cur[i] == entries[n - 1] && IsNewcomer(entries, n - 1, known, author);
    }
  }

  /** Every newcomer's id is among the newcomers' ids. */
  lemma {:induction false} NewcomerIdsComplete(entries: seq<ActionInfo>, n: nat, known: set<string>, author: string, k: nat)
    requires k < n <= |entries|
    requires IsNewcomer(entries, k, known, author)
    ensures entries[k].connectionId in ConnectionIds(Newcomers(entries, n, known, author))
    decreases n
  {
    var prev := Newcomers(entries, n - 1, known, author);
    var cur := Newcomers(entries, n, known, author);
    if k < n - 1 {
      NewcomerIdsComplete(entries, n - 1, known, author, k);
      assert |prev| <= |cur| && cur[..|prev|] == prev;
      var i :| 0 <= i < |prev| && ConnectionIds(prev)[i] == entries[k].connectionId;
      assert ConnectionIds(cur)[i] == entries[k].connectionId;
    } else {
      assert cur == prev + [entries[k]];
      assert ConnectionIds(cur)[|prev|] == entries[k].connectionId;
    }
  }

  /** An id is among the newcomers' ids exactly when some newcomer carries it. */
  lemma NewcomerIds(entries: seq<ActionInfo>, n: nat, known: set<string>, author: string, id: string)
    requires n <= |entries|
    ensures id in ConnectionIds(Newcomers(entries, n, known, author)) <==>
      exists k :: 0 <= k < n && IsNewcomer(entries, k, known, author) && entries[k].connectionId == id
  {
    if id in ConnectionIds(Newcomers(entries, n, known, author)) {
      NewcomerIdsSound(entries, n, known, author, id);
    }
    if exists k :: 0 <= k < n && IsNewcomer(entries, k, known, author) && entries[k].connectionId == id {
      var k :| 0 <= k < n && IsNewcomer(entries, k, known, author) && entries[k].connectionId == id;
      NewcomerIdsComplete(entries, n, known, author, k);
    }
  }

  /** The earliest non-author entry with a given unknown id is a newcomer. */
  lemma {:induction false} SomeNewcomerCarries(entries: seq<ActionInfo>, j: nat, known: set<string>, author: string)
    requires j < |entries|
    requires entries[j].connectionId !in known && entries[j].currentUser != author
    ensures exists k :: 0 <= k <= j && IsNewcomer(entries, k, known, author) && entries[k].connectionId == entries[j].connectionId
    decreases j
  {
    if !IsNewcomer(entries, j, known, author) {
      var j' :| 0 <= j' < j && entries[j'].connectionId == entries[j].connectionId && entries[j'].currentUser != author;
      SomeNewcomerCarries(entries, j', known, author);
    }
  }

  /** The last entry of a batch is skipped exactly when it is not a newcomer. */
  lemma SkipIffNotNewcomer(entries: seq<ActionInfo>, known: set<string>, author: string)
    requires |entries| > 0
    ensures var n := |entries|;
      var e := entries[n - 1];
      (e.connectionId in known || e.connectionId in ConnectionIds(Newcomers(entries, n - 1, known, author)) || e.currentUser == author)
        <==> !IsNewcomer(entries, n - 1, known, author)
  {
    var n := |entries|;
    var e := entries[n - 1];
    NewcomerIds(entries, n - 1, known, author, e.connectionId);
    if e.connectionId !in known && e.currentUser != author && !IsNewcomer(entries, n - 1, known, author) {
      var j :| 0 <= j < n - 1 && entries[j].connectionId == e.connectionId && entries[j].currentUser != author;
      SomeNewcomerCarries(entries, j, known, author);
    }
  }

  /** The entries that get an avatar are exactly the newcomers, in batch order. */
  lemma {:induction false} AcceptedAreNewcomers(entries: seq<ActionInfo>, known: set<string>, author: string)
    ensures Accepted(entries, known, author) == Newcomers(entries, |entries|, known, author)
    decreases |entries|
  {
    if entries != [] {
      var n := |entries|;
      AcceptedAreNewcomers(entries[..n - 1], known, author);
      NewcomersOfPrefix(entries, n - 1, n - 1, known, author);
      SkipIffNotNewcomer(entries, known, author);
    }
  }

  /** The accepted list grows only at its end, and only by the entry just looked at. */
  lemma AcceptedLast(entries: seq<ActionInfo>, known: set<string>, author: string)
    requires entries != []
    ensures var prev := Accepted(entries[..|entries| - 1], known, author);
      var e := entries[|entries| - 1];
      var skip := e.connectionId in known || e.connectionId in ConnectionIds(prev) || e.currentUser == author;
      Accepted(entries, known, author) == if skip then prev else prev + [e]
  {
  }

  /** No accepted id was in the map before the batch. */
  lemma {:induction false} AcceptedIdsNew(entries: seq<ActionInfo>, known: set<string>, author: string)
    ensures forall i :: 0 <= i < |Accepted(entries, known, author)| ==>
      ConnectionIds(Accepted(entries, known, author))[i] !in known
    decreases |entries|
  {
    if entries != [] {
      var init := entries[..|entries| - 1];
      AcceptedIdsNew(init, known, author);
      AcceptedLast(entries, known, author);
      var prev := Accepted(init, known, author);
      var ids := ConnectionIds(Accepted(entries, known, author));
      forall i | 0 <= i < |ids| ensures ids[i] !in known {
        if i < |prev| {
          assert ids[i] == ConnectionIds(prev)[i];
        }
      }
    }
  }

  /** The accepted ids are pairwise distinct. */
  lemma {:induction false} AcceptedIdsDistinct(entries: seq<ActionInfo>, known: set<string>, author: string)
    ensures forall i, j :: 0 <= i < j < |Accepted(entries, known, author)| ==>
      ConnectionIds(Accepted(entries, known, author))[i] != ConnectionIds(Accepted(entries, known, author))[j]
    decreases |entries|
  {
    if entries != [] {
      var init := entries[..|entries| - 1];
      AcceptedIdsDistinct(init, known, author);
      AcceptedLast(entries, known, author);
      var prev := Accepted(init, known, author);
      var pids := ConnectionIds(prev);
      var ids := ConnectionIds(Accepted(entries, known, author));
      forall i, j | 0 <= i < j < |ids| ensures ids[i] != ids[j] {
        assert ids[i] == pids[i];
        if j < |prev| {
          assert ids[j] == pids[j];
        } else {
          assert pids[i] in pids;
        }
      }
    }
  }

  /** Every accepted entry is an entry of the batch whose user is not the author. */
  lemma {:induction false} AcceptedFromEntries(entries: seq<ActionInfo>, known: set<string>, author: string)
    ensures forall a :: a in Accepted(entries, known, author) ==> a.currentUser != author && a in entries
    decreases |entries|
  {
    if entries != [] {
      var init := entries[..|entries| - 1];
      AcceptedFromEntries(init, known, author);
      AcceptedLast(entries, known, author);
      forall a | a in init ensures a in entries {
        var k :| 0 <= k < |init| && init[k] == a;
        assert entries[k] == a;
      }
    }
  }

  /** After the batch, the id of every entry whose user is not the author is in the map. */
  lemma {:induction false} NonAuthorIdsPresent(entries: seq<ActionInfo>, known: set<string>, author: string)
    ensures forall k :: 0 <= k < |entries| && entries[k].currentUser != author ==>
      entries[k].connectionId in known || entries[k].connectionId in ConnectionIds(Accepted(entries, known, author))
    decreases |entries|
  {
    if entries != [] {
      var init := entries[..|entries| - 1];
      NonAuthorIdsPresent(init, known, author);
      AcceptedLast(entries, known, author);
      var prev := Accepted(init, known, author);
      var e := entries[|entries| - 1];
      var ids := ConnectionIds(Accepted(entries, known, author));
      forall k | 0 <= k < |entries| && entries[k].currentUser != author && entries[k].connectionId !in known
        ensures entries[k].connectionId in ids
      {
        var id := entries[k].connectionId;
        if k < |init| || id in ConnectionIds(prev) {
          if k < |init| {
            assert init[k] == entries[k];
          }
          var i :| 0 <= i < |prev| && ConnectionIds(prev)[i] == id;
          assert ids[i] == id;
        } else {
          assert ids[|ids| - 1] == id;
        }
      }
    }
  }

  /** One avatar per id: the ids that join are new and pairwise distinct, none belongs to
      the author, and every id of a non-author entry is in the map afterwards. */
  lemma AcceptedIdsAreFresh(entries: seq<ActionInfo>, known: set<string>, author: string)
    ensures forall i :: 0 <= i < |Accepted(entries, known, author)| ==>
      ConnectionIds(Accepted(entries, known, author))[i] !in known
    ensures forall i, j :: 0 <= i < j < |Accepted(entries, known, author)| ==>
      ConnectionIds(Accepted(entries, known, author))[i] != ConnectionIds(Accepted(entries, known, author))[j]
    ensures forall a :: a in Accepted(entries, known, author) ==> a.currentUser != author && a in entries
    ensures forall k :: 0 <= k < |entries| && entries[k].currentUser != author ==>
      entries[k].connectionId in known || entries[k].connectionId in ConnectionIds(Accepted(entries, known, author))
  {
    AcceptedIdsNew(entries, known, author);
    AcceptedIdsDistinct(entries, known, author);
    AcceptedFromEntries(entries, known, author);
    NonAuthorIdsPresent(entries, known, author);
  }

  /** The roster's bookkeeping: `ids[i]` is the key of the i-th avatar in the list, each key
      of the map appears once, and each avatar element once. */
  ghost predicate RosterValid(userMap: map<string, Avatar>, userList: seq<Avatar>, ids: seq<string>) {
    && |ids| == |userList|
    && userMap.Keys == KeySet(ids)
    && (forall i :: 0 <= i < |ids| ==> ids[i] in userMap && userMap[ids[i]] == userList[i])
    && Distinct(ids)
    && Distinct(userList)
  }

  /** The ids of a sequence as a set. */
  function KeySet(ids: seq<string>): set<string> {
    if ids == [] then {} else KeySet(ids[..|ids| - 1]) + {ids[|ids| - 1]}
  }

  /** An id is in the set exactly when it is in the sequence. */
  lemma {:induction false} KeySetHas(ids: seq<string>, x: string)
    ensures x in KeySet(ids) <==> x in ids
    decreases |ids|
  {
    if ids != [] {
      var init := ids[..|ids| - 1];
      KeySetHas(init, x);
      assert ids == init + [ids[|ids| - 1]];
    }
  }

  /** No element occurs twice. */
  predicate Distinct<T(==)>(s: seq<T>) {
    forall i, j :: 0 <= i < j < |s| ==> s[i] != s[j]
  }

  /** The list without the element `x` (`removeChild`). */
  function Without(s: seq<Avatar>, x: Avatar): (r: seq<Avatar>)
    ensures |r| <= |s|
    ensures forall i :: 0 <= i < |r| ==> r[i] != x && r[i] in s
  {
    if s == [] then []
    else Without(s[..|s| - 1], x) + (if s[|s| - 1] == x then [] else [s[|s| - 1]])
  }

  /** In a list without repeats, removing an element is cutting it out at its index. */
  lemma {:induction false} WithoutDistinct(s: seq<Avatar>, k: nat)
    requires k < |s|
    requires Distinct(s)
    ensures Without(s, s[k]) == s[..k] + s[k + 1..]
    decreases |s|
  {
    var n := |s|;
    var init := s[..n - 1];
    if k == n - 1 {
      forall i | 0 <= i < |init| ensures init[i] != s[k] {
        assert init[i] == s[i];
      }
      WithoutAbsent(init, s[k]);
      assert s[..k] + s[k + 1..] == init;
    } else {
      forall i, j | 0 <= i < j < |init| ensures init[i] != init[j] {
        assert init[i] == s[i] && init[j] == s[j];
      }
      assert init[k] == s[k];
      WithoutDistinct(init, k);
      assert s[n - 1] != s[k];
      assert Without(s, s[k]) == Without(init, s[k]) + [s[n - 1]];
      assert init[..k] == s[..k] && init[k + 1..] == s[k + 1..n - 1];
      assert s[k + 1..] == s[k + 1..n - 1] + [s[n - 1]];
    }
  }

  /** Removing an element that is not in the list changes nothing. */
  lemma {:induction false} WithoutAbsent(s: seq<Avatar>, x: Avatar)
    requires forall i :: 0 <= i < |s| ==> s[i] != x
    ensures Without(s, x) == s
    decreases |s|
  {
    if s != [] {
      WithoutAbsent(s[..|s| - 1], x);
      assert s[..|s| - 1] + [s[|s| - 1]] == s;
    }
  }

  /** Adding a new id with a new avatar at the end keeps the bookkeeping. */
  lemma RosterAdd(userMap: map<string, Avatar>, userList: seq<Avatar>, ids: seq<string>, id: string, avatar: Avatar)
    requires RosterValid(userMap, userList, ids)
    requires id !in userMap && avatar !in userList
    ensures RosterValid(userMap[id := avatar], userList + [avatar], ids + [id])
  {
    var ids' := ids + [id];
    var list' := userList + [avatar];
    assert ids'[..|ids|] == ids;
    forall i | 0 <= i < |ids|
      ensures ids'[i] != id && list'[i] != avatar
    {
      assert ids[i] in userMap;
      assert userList[i] in userList;
    }
  }

  /** Cutting out the k-th entry of a sequence shifts the later entries down by one. */
  lemma CutAt<T>(s: seq<T>, k: nat)
    requires k < |s|
    ensures |s[..k] + s[k + 1..]| == |s| - 1
    ensures forall i :: 0 <= i < k ==> (s[..k] + s[k + 1..])[i] == s[i]
    ensures forall i :: k < i < |s| ==> (s[..k] + s[k + 1..])[i - 1] == s[i]
  {
  }

  /** Cutting an entry out of a list without repeats leaves a list without repeats, and
      without that entry. */
  lemma CutKeepsDistinct<T>(s: seq<T>, k: nat)
    requires k < |s| && Distinct(s)
    ensures Distinct(s[..k] + s[k + 1..])
  {
    var c := s[..k] + s[k + 1..];
    CutAt(s, k);
    forall i, j | 0 <= i < j < |c| ensures c[i] != c[j] {
      var oi := if i < k then i else i + 1;
      var oj := if j < k then j else j + 1;
      assert c[i] == s[oi] && c[j] == s[oj];
    }
  }

  /** Cutting out the k-th key and avatar keeps the bookkeeping and removes exactly that key. */
  lemma RosterRemove(userMap: map<string, Avatar>, userList: seq<Avatar>, ids: seq<string>, k: nat)
    requires RosterValid(userMap, userList, ids) && k < |ids|
    ensures RosterValid(userMap - {ids[k]}, userList[..k] + userList[k + 1..], ids[..k] + ids[k + 1..])
  {
    var ids' := ids[..k] + ids[k + 1..];
    var list' := userList[..k] + userList[k + 1..];
    var map' := userMap - {ids[k]};
    CutAt(ids, k);
    CutAt(userList, k);
    CutKeepsDistinct(ids, k);
    CutKeepsDistinct(userList, k);
    forall i | 0 <= i < |ids'| ensures ids'[i] in map' && map'[ids'[i]] == list'[i] {
      var o := if i < k then i else i + 1;
      assert ids'[i] == ids[o] && list'[i] == userList[o];
      assert ids[o] != ids[k];
    }
    forall x ensures x in KeySet(ids') <==> x in map' {
      KeySetHas(ids', x);
      KeySetHas(ids, x);
      if x in ids && x != ids[k] {
        var i :| 0 <= i < |ids| && ids[i] == x;
        if i < k {
          assert ids'[i] == x;
        } else {
          assert ids'[i - 1] == x;
        }
      }
    }
  }

  /** The text a title bar gives a document: the editor's name, or "Untitled" when the
      name is empty. */
  function DefaultTitle(documentName: string): (r: string)
    ensures r != ""
    ensures documentName != "" ==> r == documentName
    ensures documentName == "" ==> r == "Untitled"
  {
    if documentName == "" then "Untitled" else documentName
  }

  /** The label text both title bars show. */
  const TitleText: string := "Collaborative Editing"

  /** Each avatar shows the user of the entry at the same position, by name and initials. */
  ghost predicate Depicts(avatars: seq<Avatar>, entries: seq<ActionInfo>)
    decreases |entries|
  {
    && |avatars| == |entries|
    && (entries != [] ==>
          var n := |entries|;
          && avatars[n - 1].title == entries[n - 1].currentUser
          && avatars[n - 1].initials == Initials(entries[n - 1].currentUser)
          && Depicts(avatars[..n - 1], entries[..n - 1]))
  }

  /** One more avatar showing one more entry. */
  lemma DepictsAppend(avatars: seq<Avatar>, entries: seq<ActionInfo>, a: Avatar, e: ActionInfo)
    requires Depicts(avatars, entries)
    requires a.title == e.currentUser && a.initials == Initials(e.currentUser)
    ensures Depicts(avatars + [a], entries + [e])
  {
    assert (avatars + [a])[..|avatars|] == avatars;
    assert (entries + [e])[..|entries|] == entries;
  }

  /** What `addUser` leaves: the accepted entries' ids appended to the keys in order, one new
      avatar per accepted entry at the end of the list, showing that entry's user and
      initials, and every earlier key bound as before. */
  ghost predicate AddedInOrder(oldMap: map<string, Avatar>, oldList: seq<Avatar>, oldIds: seq<string>,
                               newMap: map<string, Avatar>, newList: seq<Avatar>, newIds: seq<string>,
                               acc: seq<ActionInfo>)
  {
    && newIds == oldIds + ConnectionIds(acc)
    && |oldList| <= |newList|
    && newList[..|oldList|] == oldList
    && Depicts(newList[|oldList|..], acc)
    && (forall k :: k in oldMap ==> k in newMap && newMap[k] == oldMap[k])
  }

  /** One more entry of a batch: it is accepted exactly when its id is not in the map so
      far and its user is not the author. */
  lemma AcceptedStep(entries: seq<ActionInfo>, i: nat, known: set<string>, author: string)
    requires i < |entries|
    ensures var acc := Accepted(entries[..i], known, author);
      var e := entries[i];
      Accepted(entries[..i + 1], known, author) ==
        if e.connectionId in known || e.connectionId in ConnectionIds(acc) || e.currentUser == author then acc
        else acc + [e]
  {
    assert entries[..i + 1][..i] == entries[..i];
  }

  /** While a batch is added, the map's keys are the keys from before and the ids accepted so far. */
  lemma AddedKeys(oldMap: map<string, Avatar>, oldList: seq<Avatar>, oldIds: seq<string>,
                  newMap: map<string, Avatar>, newList: seq<Avatar>, newIds: seq<string>,
                  acc: seq<ActionInfo>, id: string)
    requires oldMap.Keys == KeySet(oldIds) && newMap.Keys == KeySet(newIds)
    requires newIds == oldIds + ConnectionIds(acc)
    ensures id in newMap <==> id in oldMap || id in ConnectionIds(acc)
  {
    KeySetHas(newIds, id);
    KeySetHas(oldIds, id);
  }

  /** Adding an accepted entry's avatar extends what `addUser` has done so far by that entry. */
  lemma AddedInOrderStep(oldMap: map<string, Avatar>, oldList: seq<Avatar>, oldIds: seq<string>,
                         newMap: map<string, Avatar>, newList: seq<Avatar>, newIds: seq<string>,
                         acc: seq<ActionInfo>, e: ActionInfo, avatar: Avatar)
    requires AddedInOrder(oldMap, oldList, oldIds, newMap, newList, newIds, acc)
    requires e.connectionId !in newMap
    requires avatar.title == e.currentUser && avatar.initials == Initials(e.currentUser)
    ensures AddedInOrder(oldMap, oldList, oldIds, newMap[e.connectionId := avatar], newList + [avatar],
                         newIds + [e.connectionId], acc + [e])
  {
    assert ConnectionIds(acc + [e]) == ConnectionIds(acc) + [e.connectionId];
    assert (newList + [avatar])[..|oldList|] == newList[..|oldList|];
    assert (newList + [avatar])[|oldList|..] == newList[|oldList|..] + [avatar];
    DepictsAppend(newList[|oldList|..], acc, avatar, e);
  }

  /** An entry whose id is already in the map, or whose user is the author, leaves the
      accepted entries as they were. */
  lemma SkipStep(oldMap: map<string, Avatar>, oldList: seq<Avatar>, oldIds: seq<string>,
                 curMap: map<string, Avatar>, curList: seq<Avatar>, curIds: seq<string>,
                 entries: seq<ActionInfo>, i: nat, author: string)
    requires i < |entries|
    requires oldMap.Keys == KeySet(oldIds) && curMap.Keys == KeySet(curIds)
    requires curIds == oldIds + ConnectionIds(Accepted(entries[..i], oldMap.Keys, author))
    requires entries[i].connectionId in curMap || entries[i].currentUser == author
    ensures Accepted(entries[..i + 1], oldMap.Keys, author) == Accepted(entries[..i], oldMap.Keys, author)
  {
    AcceptedStep(entries, i, oldMap.Keys, author);
    AddedKeys(oldMap, oldList, oldIds, curMap, curList, curIds, Accepted(entries[..i], oldMap.Keys, author),
              entries[i].connectionId);
  }

  /** An entry with a new id and a user other than the author is accepted, and its avatar
      at the end of the list and its key extend what `addUser` has done so far by that
      entry. */
  lemma AddStep(oldMap: map<string, Avatar>, oldList: seq<Avatar>, oldIds: seq<string>,
                curMap: map<string, Avatar>, curList: seq<Avatar>, curIds: seq<string>,
                entries: seq<ActionInfo>, i: nat, author: string, avatar: Avatar)
    requires i < |entries|
    requires oldMap.Keys == KeySet(oldIds) && curMap.Keys == KeySet(curIds)
    requires AddedInOrder(oldMap, oldList, oldIds, curMap, curList, curIds, Accepted(entries[..i], oldMap.Keys, author))
    requires entries[i].connectionId !in curMap && entries[i].currentUser != author
    requires avatar.title == entries[i].currentUser && avatar.initials == Initials(entries[i].currentUser)
    ensures Accepted(entries[..i + 1], oldMap.Keys, author) == Accepted(entries[..i], oldMap.Keys, author) + [entries[i]]
    ensures AddedInOrder(oldMap, oldList, oldIds, curMap[entries[i].connectionId := avatar], curList + [avatar],
                         curIds + [entries[i].connectionId], Accepted(entries[..i + 1], oldMap.Keys, author))
  {
    var acc := Accepted(entries[..i], oldMap.Keys, author);
    AcceptedStep(entries, i, oldMap.Keys, author);
    AddedKeys(oldMap, oldList, oldIds, curMap, curList, curIds, acc, entries[i].connectionId);
    AddedInOrderStep(oldMap, oldList, oldIds, curMap, curList, curIds, acc, entries[i], avatar);
  }

  /** One pass of the `addUser` loop, whichever way it goes, extends what `addUser` has done
      so far by the entry it looked at. */
  lemma EntryStep(oldMap: map<string, Avatar>, oldList: seq<Avatar>, oldIds: seq<string>,
                  curMap: map<string, Avatar>, curList: seq<Avatar>, curIds: seq<string>,
                  newMap: map<string, Avatar>, newList: seq<Avatar>, newIds: seq<string>,
                  entries: seq<ActionInfo>, i: nat, author: string)
    requires i < |entries|
    requires oldMap.Keys == KeySet(oldIds) && curMap.Keys == KeySet(curIds)
    requires AddedInOrder(oldMap, oldList, oldIds, curMap, curList, curIds, Accepted(entries[..i], oldMap.Keys, author))
    requires entries[i].connectionId in curMap || entries[i].currentUser == author ==>
      newMap == curMap && newList == curList && newIds == curIds
    requires !(entries[i].connectionId in curMap || entries[i].currentUser == author) ==>
      && |newList| == |curList| + 1
      && newList == curList + [newList[|curList|]]
      && newList[|curList|].title == entries[i].currentUser
      && newList[|curList|].initials == Initials(entries[i].currentUser)
      && newMap == curMap[entries[i].connectionId := newList[|curList|]]
      && newIds == curIds + [entries[i].connectionId]
    ensures AddedInOrder(oldMap, oldList, oldIds, newMap, newList, newIds, Accepted(entries[..i + 1], oldMap.Keys, author))
  {
    if entries[i].connectionId in curMap || entries[i].currentUser == author {
      SkipStep(oldMap, oldList, oldIds, curMap, curList, curIds, entries, i, author);
    } else {
      AddStep(oldMap, oldList, oldIds, curMap, curList, curIds, entries, i, author, newList[|curList|]);
    }
  }
}
