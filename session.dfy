/**
 * The interactive inspection of duplicate groups in `Program.Main`: a command
 * state machine over the groups `FindDuplicateGroups` returned. Each command line
 * is trimmed; a blank line (and the end of input, which reads as an empty line)
 * skips to the next group; otherwise the first word, lower-cased, is the command
 * and the rest of the line, trimmed, its argument.
 *
 *   v LIST   view the selected records (no change), stay
 *   m LIST   merge two or more selected records into the first, advance
 *   d LIST   delete the selected records, stay unless at most one is left
 *   k        keep the first record of the group, remove the others, advance
 *   s, n     advance
 *   p        go back one group (not before the first)
 *   q        stop; the remaining groups are left alone
 *   other    stay
 *
 * The working list starts as the vault's records and replaces them at the end.
 * Records are removed by id: every record of the working list whose non-blank id
 * is among the removed ids goes, wherever it is.
 */
module InteractiveSession {
  import opened Wrappers
  import opened Text
  import opened VaultModel
  import opened RecordMerger
  import opened DuplicateGroups
  import opened IndexSets
  import Deduplicator
  import CompositeKey

  /** Where the session is: the group shown, whether `q` was given, the working list and the groups as edited. */
  datatype Session = Session(gIdx: nat, quit: bool, working: seq<Item>, groups: seq<DuplicateGroup>)

  /** The loop over the groups has ended. */
  predicate Done(s: Session) {
    s.quit || s.gIdx >= |s.groups|
  }

  /** A trimmed command line: blank, or a lower-cased command word and its argument. */
  datatype Command = Blank | Cmd(name: string, arg: string)

  /** The position of the first space, or the length when there is none. */
  function FirstSpace(s: string): (r: nat)
    ensures r <= |s|
    ensures r < |s| ==> s[r] == ' '
    ensures forall i :: 0 <= i < r ==> s[i] != ' '
    decreases |s|
  {
    if |s| == 0 then 0 else if s[0] == ' ' then 0 else 1 + FirstSpace(s[1..])
  }

  /**
   * `cmdLine.Split(' ', 2, RemoveEmptyEntries | TrimEntries)` on a trimmed line:
   * the word before the first space, lower-cased, and the trimmed rest.
   */
  function ParseCommand(cmdLine: string): Command {
    if IsWhiteSpaceOnly(cmdLine) then Blank
    else
      var k := FirstSpace(cmdLine);
      Cmd(ToLower(Trim(cmdLine[..k])), if k < |cmdLine| then Trim(cmdLine[k + 1..]) else "")
  }

  /** A line parses as blank exactly when it is white space only; a command word is lower case. */
  lemma ParseCommandFacts(cmdLine: string)
    ensures ParseCommand(cmdLine).Blank? <==> IsWhiteSpaceOnly(cmdLine)
    ensures ParseCommand(cmdLine).Cmd? ==>
              forall i :: 0 <= i < |ParseCommand(cmdLine).name| ==> !('A' <= ParseCommand(cmdLine).name[i] <= 'Z')
  {
  }

  /** A leading word without spaces moves the first space by its length. */
  lemma {:induction false} FirstSpaceAfterWord(w: string, rest: string)
    requires ' ' !in w
    ensures FirstSpace(w + rest) == |w| + FirstSpace(rest)
    decreases |w|
  {
    if |w| > 0 {
      assert w[0] in w && (w + rest)[0] == w[0];
      assert (w + rest)[1..] == w[1..] + rest;
      assert forall c :: c in w[1..] ==> c in w;
      FirstSpaceAfterWord(w[1..], rest);
    } else {
      assert w + rest == rest;
    }
  }

  /**
   * A trimmed line made of a command word, a space and an argument reads as the
   * word, lower-cased, and the trimmed argument; the word alone reads with an
   * empty argument.
   */
  lemma ParseCommandOfWord(w: string, arg: string)
    requires |w| > 0 && ' ' !in w && !IsWhiteSpace(w[0]) && Trim(w) == w
    ensures ParseCommand(w + " " + arg) == Cmd(ToLower(w), Trim(arg))
    ensures ParseCommand(w) == Cmd(ToLower(w), "")
  {
    var line := w + " " + arg;
    NotBlankWitness(line, 0);
    NotBlankWitness(w, 0);
    FirstSpaceAfterWord(w, " " + arg);
    FirstSpaceAfterWord(w, "");
    assert w + "" == w;
    assert line == w + (" " + arg);
    assert FirstSpace(" " + arg) == 0;
    assert line[..|w|] == w;
    assert line[|w| + 1..] == arg;
  }

  // ---------------------------------------------------------------------------
  // The list operations the commands use
  // ---------------------------------------------------------------------------

  /** `ids.Select(i => g.Items[i])`. */
  function Selected(items: seq<Item>, ids: seq<int>): (r: seq<Item>)
    requires forall k :: 0 <= k < |ids| ==> 0 <= ids[k] < |items|
    ensures |r| == |ids| && forall k :: 0 <= k < |ids| ==> r[k] == items[ids[k]]
  {
    seq(|ids|, k requires 0 <= k < |ids| => items[ids[k]])
  }

  /** `xs.Aggregate((a, b) => MergeItems(a, b))`: each record merged into the running result, left to right. */
  function MergeAll(xs: seq<Item>): (r: Item)
    requires |xs| >= 1
    ensures r.id == xs[0].id && r.organizationId == xs[0].organizationId
    ensures r.revisionDate == xs[0].revisionDate && r.itemType == xs[0].itemType
    ensures r.favorite <==> exists k :: 0 <= k < |xs| && xs[k].favorite
    decreases |xs|
  {
    if |xs| == 1 then xs[0]
    else
      var acc := MergeAll(xs[..|xs| - 1]);
      assert MergeItems(Some(acc), Some(xs[|xs| - 1])) == Success(MergeInto(acc, xs[|xs| - 1]));
      assert forall k :: 0 <= k < |xs| - 1 ==> xs[..|xs| - 1][k] == xs[k];
      MergeInto(acc, xs[|xs| - 1])
  }

  /** `xs.Select(x => x.Id).Where(x => !string.IsNullOrWhiteSpace(x)).ToHashSet()`. */
  function NonBlankIds(xs: seq<Item>): set<string>
    decreases |xs|
  {
    if |xs| == 0 then {}
    else NonBlankIds(xs[..|xs| - 1]) + (if IsBlank(xs[|xs| - 1].id) then {} else {xs[|xs| - 1].id.value})
  }

  /** `!ids.Contains(x.Id)`: a record without an id is never removed. */
  predicate Keeps(ids: set<string>, x: Item) {
    x.id.None? || x.id.value !in ids
  }

  /** `xs.Where(x => !ids.Contains(x.Id)).ToList()`. */
  function Without(xs: seq<Item>, ids: set<string>): (r: seq<Item>)
    ensures |r| <= |xs|
    decreases |xs|
  {
    if |xs| == 0 then []
    else Without(xs[..|xs| - 1], ids) + (if Keeps(ids, xs[|xs| - 1]) then [xs[|xs| - 1]] else [])
  }

  /** `xs.FindIndex(x => x.Id == id)`, with `null == null`. */
  function FindIndexById(xs: seq<Item>, id: Option<string>): (r: Option<nat>)
    ensures r.Some? ==> r.value < |xs| && xs[r.value].id == id && forall j :: 0 <= j < r.value ==> xs[j].id != id
    ensures r.None? ==> forall j :: 0 <= j < |xs| ==> xs[j].id != id
    decreases |xs|
  {
    if |xs| == 0 then None
    else if xs[0].id == id then Some(0)
    else match FindIndexById(xs[1..], id)
      case None => None
      case Some(j) => Some(j + 1)
  }

  /** `if (idxInList >= 0) itemsList[idxInList] = merged`. */
  function ReplaceFirst(xs: seq<Item>, id: Option<string>, merged: Item): (r: seq<Item>)
    ensures |r| == |xs|
  {
    match FindIndexById(xs, id)
    case None => xs
    case Some(j) => xs[j := merged]
  }

  /**
   * Replacing the first record with a given id leaves the other records, and the
   * replacement is present when such a record exists.
   */
  lemma ReplaceFirstMembers(xs: seq<Item>, id: Option<string>, merged: Item)
    ensures forall x :: x in ReplaceFirst(xs, id, merged) ==> x in xs || x == merged
    ensures forall i :: 0 <= i < |xs| && FindIndexById(xs, id) != Some(i) ==> xs[i] in ReplaceFirst(xs, id, merged)
    ensures FindIndexById(xs, id).Some? ==> merged in ReplaceFirst(xs, id, merged)
    ensures FindIndexById(xs, id).Some? ==> ReplaceFirst(xs, id, merged) == xs[FindIndexById(xs, id).value := merged]
    ensures FindIndexById(xs, id).None? ==> ReplaceFirst(xs, id, merged) == xs
  {
    var replaced, slot := ReplaceFirst(xs, id, merged), FindIndexById(xs, id);
    forall x | x in replaced ensures x in xs || x == merged {
      var i :| 0 <= i < |replaced| && replaced[i] == x;
      if slot.None? || slot.value != i {
        assert x == xs[i];
      }
    }
    forall i | 0 <= i < |xs| && slot != Some(i) ensures xs[i] in replaced {
      assert replaced[i] == xs[i];
    }
    if slot.Some? {
      assert replaced[slot.value] == merged;
    }
  }

  /** `Skip(1)`. */
  function Tail(xs: seq<Item>): seq<Item> {
    if |xs| == 0 then [] else xs[1..]
  }

  /** `Take(1)`. */
  function Head(xs: seq<Item>): seq<Item> {
    if |xs| == 0 then [] else xs[..1]
  }

  // ---------------------------------------------------------------------------
  // The commands
  // ---------------------------------------------------------------------------

  function Advance(s: Session): Session {
    s.(gIdx := s.gIdx + 1)
  }

  /** The selection of `m` or `d`: the records of the current group at the parsed indices. */
  function Selection(s: Session, arg: string): (r: seq<Item>)
    requires !Done(s)
    ensures |r| == |IndexList(arg, |s.groups[s.gIdx].items|)|
  {
    var items := s.groups[s.gIdx].items;
    Selected(items, IndexList(arg, |items|))
  }

  /** `m` with two or more valid indices. */
  function MergeSelected(s: Session, sel: seq<Item>): Session
    requires !Done(s) && |sel| >= 2
  {
    var g := s.groups[s.gIdx];
    var removeIds := NonBlankIds(sel[1..]);
    s.(working := Without(ReplaceFirst(s.working, sel[0].id, MergeAll(sel)), removeIds),
       groups := s.groups[s.gIdx := g.(items := Without(g.items, removeIds))],
       gIdx := s.gIdx + 1)
  }

  /** `d` with at least one valid index. */
  function DeleteSelected(s: Session, sel: seq<Item>): Session
    requires !Done(s)
  {
    var g := s.groups[s.gIdx];
    var deleteIds := NonBlankIds(sel);
    var items := Without(g.items, deleteIds);
    s.(working := Without(s.working, deleteIds),
       groups := s.groups[s.gIdx := g.(items := items)],
       gIdx := if |items| <= 1 then s.gIdx + 1 else s.gIdx)
  }

  /** `k`. */
  function KeepFirst(s: Session): Session
    requires !Done(s)
  {
    var g := s.groups[s.gIdx];
    s.(working := Without(s.working, NonBlankIds(Tail(g.items))),
       groups := s.groups[s.gIdx := g.(items := Head(g.items))],
       gIdx := s.gIdx + 1)
  }

  /** What one command does to the session. */
  function Exec(s: Session, c: Command): (r: Session)
    requires !Done(s)
    ensures |r.groups| == |s.groups|
    ensures c.Blank? ==> r == Advance(s)
  {
    match c
    case Blank => Advance(s)
    case Cmd(cmd, arg) =>
      if cmd == "v" then s
      else if cmd == "m" then
        var sel := Selection(s, arg);
        if |sel| < 2 then s else MergeSelected(s, sel)
      else if cmd == "d" then
        var sel := Selection(s, arg);
        if |sel| == 0 then s else DeleteSelected(s, sel)
      else if cmd == "k" then KeepFirst(s)
      else if cmd == "s" || cmd == "n" then Advance(s)
      else if cmd == "p" then s.(gIdx := if s.gIdx == 0 then 0 else s.gIdx - 1)
      else if cmd == "q" then s.(quit := true, gIdx := s.gIdx + 1)
      else s
  }

  /** The next line of input; the end of input reads as an empty line. */
  function NextLine(cmds: seq<string>): string {
    if |cmds| == 0 then "" else cmds[0]
  }

  function RestLines(cmds: seq<string>): seq<string> {
    if |cmds| == 0 then [] else cmds[1..]
  }

  /** The whole session: one command per line until every group is passed or `q` is given. */
  function Run(s: Session, cmds: seq<string>): (r: Session)
    decreases |cmds|, if s.gIdx < |s.groups| then |s.groups| - s.gIdx else 0
  {
    if Done(s) then s
    else Run(Exec(s, ParseCommand(Trim(NextLine(cmds)))), RestLines(cmds))
  }

  /** One prompt of a session that has not ended. */
  lemma RunStep(s: Session, cmds: seq<string>)
    requires !Done(s)
    ensures Run(s, cmds) == Run(Exec(s, ParseCommand(Trim(NextLine(cmds)))), RestLines(cmds))
  {
  }

  /** One prompt, as the loop takes it: the next line read, parsed and executed. */
  lemma PromptStep(s: Session, pending: seq<string>, c: Command, r: Session)
    requires !Done(s) && c == ParseCommand(Trim(NextLine(pending))) && r == Exec(s, c)
    ensures Run(s, pending) == Run(r, RestLines(pending))
  {
  }

  // ---------------------------------------------------------------------------
  // Properties of the list operations
  // ---------------------------------------------------------------------------

  /** `NonBlankIds` holds exactly the non-blank ids of the records. */
  lemma {:induction false} NonBlankIdsMembers(xs: seq<Item>, k: string)
    ensures k in NonBlankIds(xs) <==> exists i :: 0 <= i < |xs| && xs[i].id == Some(k) && !IsWhiteSpaceOnly(k)
    decreases |xs|
  {
    if |xs| > 0 {
      var n := |xs| - 1;
      NonBlankIdsMembers(xs[..n], k);
      if exists i :: 0 <= i < |xs| && xs[i].id == Some(k) && !IsWhiteSpaceOnly(k) {
        var i :| 0 <= i < |xs| && xs[i].id == Some(k) && !IsWhiteSpaceOnly(k);
        if i < n {
          assert xs[..n][i] == xs[i];
        }
      }
      if exists i :: 0 <= i < n && xs[..n][i].id == Some(k) && !IsWhiteSpaceOnly(k) {
        var i :| 0 <= i < n && xs[..n][i].id == Some(k) && !IsWhiteSpaceOnly(k);
        assert xs[i] == xs[..n][i];
      }
    }
  }

  /** `Without` keeps exactly the records whose id is not removed, in their order. */
  lemma {:induction false} WithoutMembers(xs: seq<Item>, ids: set<string>)
    ensures forall x :: x in Without(xs, ids) <==> x in xs && Keeps(ids, x)
    decreases |xs|
  {
    if |xs| > 0 {
      var n := |xs| - 1;
      WithoutMembers(xs[..n], ids);
      assert xs == xs[..n] + [xs[n]];
    }
  }

  /**
   * `Without` filters each part of a concatenation separately, so the records it
   * keeps stay in their relative order.
   */
  lemma {:induction false} WithoutConcat(xs: seq<Item>, ys: seq<Item>, ids: set<string>)
    ensures Without(xs + ys, ids) == Without(xs, ids) + Without(ys, ids)
    decreases |ys|
  {
    if |ys| == 0 {
      assert xs + ys == xs;
    } else {
      var n := |ys| - 1;
      WithoutConcat(xs, ys[..n], ids);
      assert (xs + ys)[..|xs + ys| - 1] == xs + ys[..n];
      assert (xs + ys)[|xs + ys| - 1] == ys[n];
    }
  }

  /** Removing ids no record has changes nothing. */
  lemma {:induction false} WithoutNothing(xs: seq<Item>, ids: set<string>)
    requires forall i :: 0 <= i < |xs| ==> Keeps(ids, xs[i])
    ensures Without(xs, ids) == xs
    decreases |xs|
  {
    if |xs| > 0 {
      var n := |xs| - 1;
      WithoutNothing(xs[..n], ids);
      assert xs == xs[..n] + [xs[n]];
    }
  }

  /** Removing the same ids twice is removing them once. */
  lemma WithoutIdempotent(xs: seq<Item>, ids: set<string>)
    ensures Without(Without(xs, ids), ids) == Without(xs, ids)
  {
    var w := Without(xs, ids);
    WithoutMembers(xs, ids);
    forall i | 0 <= i < |w| ensures Keeps(ids, w[i]) {
      assert w[i] in w;
    }
    WithoutNothing(w, ids);
  }

  // ---------------------------------------------------------------------------
  // Properties of the commands
  // ---------------------------------------------------------------------------

  /**
   * `m` with fewer than two valid indices changes nothing. Otherwise the working
   * list keeps only records whose id is not one of the other selected records'
   * non-blank ids; every such record stays, except the slot of the first record
   * with the first selected id, which now holds the merge of the selection in
   * place of that record, kept unless its own id is removed; the group view loses the removed ids; no other
   * group changes; the session moves on.
   */
  lemma MergeCommandFacts(s: Session, arg: string)
    requires !Done(s)
    ensures var sel := Selection(s, arg);
            var r := Exec(s, Cmd("m", arg));
            |sel| < 2 ==> r == s
    ensures var sel := Selection(s, arg);
            var r := Exec(s, Cmd("m", arg));
            |sel| >= 2 ==>
              var removeIds := NonBlankIds(sel[1..]);
              var merged := MergeAll(sel);
              var slot := FindIndexById(s.working, sel[0].id);
              && r.gIdx == s.gIdx + 1 && r.quit == s.quit
              && (forall x :: x in r.working ==> (x in s.working || x == merged) && Keeps(removeIds, x))
              && (forall i :: 0 <= i < |s.working| && Keeps(removeIds, s.working[i]) && slot != Some(i) ==>
                    s.working[i] in r.working)
              && (slot.Some? && Keeps(removeIds, merged) ==> merged in r.working)
              && (slot.Some? ==> r.working == Without(s.working[slot.value := merged], removeIds))
              && (slot.None? ==> r.working == Without(s.working, removeIds))
              && merged.id == sel[0].id
              && (forall x :: x in r.groups[s.gIdx].items <==> x in s.groups[s.gIdx].items && Keeps(removeIds, x))
              && (forall j :: 0 <= j < |s.groups| && j != s.gIdx ==> r.groups[j] == s.groups[j])
  {
    var sel := Selection(s, arg);
    if |sel| >= 2 {
      var removeIds := NonBlankIds(sel[1..]);
      var merged := MergeAll(sel);
      var replaced := ReplaceFirst(s.working, sel[0].id, merged);
      assert Exec(s, Cmd("m", arg)) == MergeSelected(s, sel);
      ReplaceFirstMembers(s.working, sel[0].id, merged);
      WithoutMembers(replaced, removeIds);
      WithoutMembers(s.groups[s.gIdx].items, removeIds);
    }
  }

  /**
   * `d` with no valid index changes nothing. Otherwise no record left in the
   * working list or the group view has a deleted id, every other record stays,
   * and the session stays in the group unless at most one record is left in it.
   */
  lemma DeleteCommandFacts(s: Session, arg: string)
    requires !Done(s)
    ensures var sel := Selection(s, arg);
            |sel| == 0 ==> Exec(s, Cmd("d", arg)) == s
    ensures var sel := Selection(s, arg);
            var r := Exec(s, Cmd("d", arg));
            |sel| > 0 ==>
              var deleteIds := NonBlankIds(sel);
              && (forall x :: x in r.working <==> x in s.working && Keeps(deleteIds, x))
              && (forall x :: x in r.groups[s.gIdx].items <==> x in s.groups[s.gIdx].items && Keeps(deleteIds, x))
              && (r.gIdx == s.gIdx + 1 <==> |r.groups[s.gIdx].items| <= 1)
              && (r.gIdx == s.gIdx <==> |r.groups[s.gIdx].items| > 1)
              && (forall j :: 0 <= j < |s.groups| && j != s.gIdx ==> r.groups[j] == s.groups[j])
  {
    var sel := Selection(s, arg);
    if |sel| > 0 {
      WithoutMembers(s.working, NonBlankIds(sel));
      WithoutMembers(s.groups[s.gIdx].items, NonBlankIds(sel));
    }
  }

  /**
   * `k` leaves only the first record in the group view, removes from the working
   * list every record with the non-blank id of another record of the group, keeps
   * every other record, and moves on.
   */
  lemma KeepCommandFacts(s: Session, arg: string)
    requires !Done(s)
    ensures var g, r := s.groups[s.gIdx], Exec(s, Cmd("k", arg));
            var removeIds := NonBlankIds(Tail(g.items));
            && r.gIdx == s.gIdx + 1
            && r.groups[s.gIdx].items == (if |g.items| == 0 then [] else [g.items[0]])
            && (forall x :: x in r.working <==> x in s.working && Keeps(removeIds, x))
            && (forall k :: k in removeIds <==> exists i :: 1 <= i < |g.items| && g.items[i].id == Some(k) && !IsWhiteSpaceOnly(k))
  {
    var g := s.groups[s.gIdx];
    var removeIds := NonBlankIds(Tail(g.items));
    WithoutMembers(s.working, removeIds);
    forall k ensures k in removeIds <==> exists i :: 1 <= i < |g.items| && g.items[i].id == Some(k) && !IsWhiteSpaceOnly(k) {
      NonBlankIdsMembers(Tail(g.items), k);
      if exists i :: 1 <= i < |g.items| && g.items[i].id == Some(k) && !IsWhiteSpaceOnly(k) {
        var i :| 1 <= i < |g.items| && g.items[i].id == Some(k) && !IsWhiteSpaceOnly(k);
        assert Tail(g.items)[i - 1] == g.items[i];
      }
      if exists i :: 0 <= i < |Tail(g.items)| && Tail(g.items)[i].id == Some(k) && !IsWhiteSpaceOnly(k) {
        var i :| 0 <= i < |Tail(g.items)| && Tail(g.items)[i].id == Some(k) && !IsWhiteSpaceOnly(k);
        assert Tail(g.items)[i] == g.items[i + 1];
      }
    }
  }

  /**
   * Navigation: a blank line, `s` and `n` advance; `p` goes back one group but not
   * before the first; `q` ends the session with nothing else changed; `v` and an
   * unknown command stay. None of them changes the working list or the groups.
   */
  lemma NavigationFacts(s: Session, arg: string, other: string)
    requires !Done(s)
    requires other !in {"v", "m", "d", "k", "s", "n", "p", "q"}
    ensures Exec(s, Blank) == Advance(s)
    ensures Exec(s, Cmd("s", arg)) == Advance(s) && Exec(s, Cmd("n", arg)) == Advance(s)
    ensures Exec(s, Cmd("p", arg)) == s.(gIdx := if s.gIdx == 0 then 0 else s.gIdx - 1)
    ensures var r := Exec(s, Cmd("q", arg)); Done(r) && r.working == s.working && r.groups == s.groups
    ensures Exec(s, Cmd("v", arg)) == s && Exec(s, Cmd(other, arg)) == s
  {
  }

  /** After `q` no further line is read: the remaining groups are left as they are. */
  lemma QuitEndsSession(s: Session, arg: string, rest: seq<string>)
    requires !Done(s)
    ensures Run(Exec(s, Cmd("q", arg)), rest) == Exec(s, Cmd("q", arg))
  {
    var r := Exec(s, Cmd("q", arg));
    assert r == s.(quit := true, gIdx := s.gIdx + 1);
    assert Done(r);
  }

  /** At the end of input every remaining group is skipped and nothing changes. */
  lemma {:induction false} EndOfInputSkips(s: Session)
    ensures var r := Run(s, []);
            r.working == s.working && r.groups == s.groups && r.quit == s.quit
            && (!Done(s) ==> r.gIdx == |s.groups|)
    decreases if s.gIdx < |s.groups| then |s.groups| - s.gIdx else 0
  {
    if !Done(s) {
      assert IsWhiteSpaceOnly(Trim(""));
      EndOfInputSkips(Advance(s));
    }
  }

  /** No command makes the working list longer: each one replaces a slot or filters. */
  lemma ExecShrinks(s: Session, c: Command)
    requires !Done(s)
    ensures |Exec(s, c).working| <= |s.working|
  {
  }

  /**
   * A session always ends (every group passed or `q` given), the working list
   * never grows over it, and the number of groups stays the same.
   */
  lemma {:induction false} RunShrinks(s: Session, cmds: seq<string>)
    ensures Done(Run(s, cmds))
    ensures |Run(s, cmds).working| <= |s.working|
    ensures |Run(s, cmds).groups| == |s.groups|
    decreases |cmds|, if s.gIdx < |s.groups| then |s.groups| - s.gIdx else 0
  {
    if !Done(s) {
      var c := ParseCommand(Trim(NextLine(cmds)));
      ExecShrinks(s, c);
      if |cmds| == 0 {
        assert IsWhiteSpaceOnly(Trim(""));
      }
      RunShrinks(Exec(s, c), RestLines(cmds));
    }
  }

  // ---------------------------------------------------------------------------
  // The loop
  // ---------------------------------------------------------------------------

  /**
   * The body of the inner loop after a non-blank command line was split: the
   * `if`/`else if` chain over the command word. `stay` is true where the source
   * says `continue` (the same group is shown again) and false where it says
   * `break`.
   */
  method ExecuteCommand(s: Session, cmd: string, arg: string) returns (r: Session, stay: bool)
    requires !Done(s)
    ensures r == Exec(s, Cmd(cmd, arg))
    ensures stay ==> r.gIdx == s.gIdx && !r.quit
    ensures !stay ==> r.gIdx + 1 >= 1 && (r.quit || r.gIdx != s.gIdx || cmd == "p")
  {
    var g := s.groups[s.gIdx];
    var working, groups := s.working, s.groups;
    if cmd == "v" {
      var ids := ParseIndexSet(arg, |g.items|);
      return s, true;
    } else if cmd == "m" {
      var ids := ParseIndexSet(arg, |g.items|);
      if |ids| < 2 {
        return s, true;
      }
      var itemsToMerge := Selected(g.items, ids);
      var merged := MergeAll(itemsToMerge);
      var firstId := itemsToMerge[0].id;
      var idxInList := FindIndexById(working, firstId);
      if idxInList.Some? {
        working := working[idxInList.value := merged];
      }
      var removeIds := NonBlankIds(itemsToMerge[1..]);
      working := Without(working, removeIds);
      g := g.(items := Without(g.items, removeIds));
      groups := groups[s.gIdx := g];
      return Session(s.gIdx + 1, s.quit, working, groups), false;
    } else if cmd == "d" {
      var ids := ParseIndexSet(arg, |g.items|);
      if |ids| == 0 {
        return s, true;
      }
      var toDelete := Selected(g.items, ids);
      var deleteIds := NonBlankIds(toDelete);
      working := Without(working, deleteIds);
      g := g.(items := Without(g.items, deleteIds));
      groups := groups[s.gIdx := g];
      if |g.items| <= 1 {
        return Session(s.gIdx + 1, s.quit, working, groups), false;
      }
      return Session(s.gIdx, s.quit, working, groups), true;
    } else if cmd == "k" {
      var removeIds := NonBlankIds(Tail(g.items));
      working := Without(working, removeIds);
      g := g.(items := Head(g.items));
      groups := groups[s.gIdx := g];
      return Session(s.gIdx + 1, s.quit, working, groups), false;
    } else if cmd == "s" || cmd == "n" {
      return Advance(s), false;
    } else if cmd == "p" {
      var gIdx := Max(-1, s.gIdx - 2);
      return s.(gIdx := gIdx + 1), false;
    } else if cmd == "q" {
      return s.(quit := true, gIdx := s.gIdx + 1), false;
    } else {
      return s, true;
    }
  }

  /**
   * The local function `ParseIndexSet(input, maxExclusive) => ParseIndexSet(input,
   * maxExclusive)` declared inside `Main` as a thin wrapper: a local function
   * shadows the static method of the same name, so the call in its body is to
   * itself. Modelled with the stack depth left: every call only makes another
   * call, until the stack is exhausted (`None`, a `StackOverflowException`).
   */
  function LocalParseIndexSetAsWritten(input: string, maxExclusive: nat, depth: nat): (r: Option<seq<int>>)
    ensures r.None?
    decreases depth
  {
    if depth == 0 then None else LocalParseIndexSetAsWritten(input, maxExclusive, depth - 1)
  }

  /**
   * However deep the stack, the wrapper as written never returns a list, whereas
   * the static helper it meant to call returns one for every expression
   * (`ExecuteCommand` calls that helper).
   */
  lemma {:induction false} LocalWrapperNeverReturns(input: string, maxExclusive: nat, depth: nat)
    ensures LocalParseIndexSetAsWritten(input, maxExclusive, depth) == None
    ensures LocalParseIndexSetAsWritten(input, maxExclusive, depth) != Some(IndexList(input, maxExclusive))
    decreases depth
  {
    if depth > 0 {
      LocalWrapperNeverReturns(input, maxExclusive, depth - 1);
    }
  }

  /**
   * One prompt: `(Console.ReadLine() ?? "").Trim()`, then a blank line leaves the
   * group (`break`) and any other line is split and executed.
   */
  method Prompt(s: Session, commands: seq<string>, next: nat) returns (r: Session, stay: bool, next': nat)
    requires !Done(s) && next <= |commands|
    ensures next <= next' <= |commands| && (next' == next ==> !stay && r == Advance(s))
    ensures stay ==> r.gIdx == s.gIdx && !r.quit
    ensures |r.groups| == |s.groups|
    ensures Run(s, commands[next..]) == Run(r, commands[next'..])
  {
    ghost var pending := commands[next..];
    var line := "";
    next' := next;
    if next < |commands| {
      line := commands[next];
      next' := next + 1;
    }
    assert line == NextLine(pending) && commands[next'..] == RestLines(pending);
    var cmdLine := Trim(line);
    if IsWhiteSpaceOnly(cmdLine) {
      PromptStep(s, pending, Blank, Advance(s));
      return Advance(s), false, next';
    }
    var k := FirstSpace(cmdLine);
    var cmd := ToLower(Trim(cmdLine[..k]));
    var arg := if k < |cmdLine| then Trim(cmdLine[k + 1..]) else "";
    r, stay := ExecuteCommand(s, cmd, arg);
    PromptStep(s, pending, Cmd(cmd, arg), r);
  }

  /**
   * The inner `while (!quitAll)` loop: the prompts of one group, up to the
   * command that leaves it. The session record holds the loop's locals `gIdx`,
   * `quitAll`, `itemsList` and `groups`; its index is the one the `break` leaves
   * after the `for` loop's increment.
   */
  method PromptGroup(s0: Session, commands: seq<string>, next: nat) returns (r: Session, next': nat)
    requires !Done(s0) && next <= |commands|
    ensures next <= next' <= |commands| && |r.groups| == |s0.groups|
    ensures next' > next || r.gIdx == s0.gIdx + 1
    ensures Run(s0, commands[next..]) == Run(r, commands[next'..])
  {
    r, next' := s0, next;
    var quitAll := false;
    while !quitAll
      invariant next <= next' <= |commands| && r.gIdx == s0.gIdx && !r.quit && |r.groups| == |s0.groups| && !quitAll
      invariant Run(s0, commands[next..]) == Run(r, commands[next'..])
      decreases |commands| - next'
    {
      var r', stay, n := Prompt(r, commands, next');
      next', r, quitAll := n, r', r'.quit;
      if stay {
        continue;
      }
      break;
    }
  }

  /** The `for (gIdx ...)` loop over the groups, reading one line of `commands` per prompt. */
  method RunSession(groups0: seq<DuplicateGroup>, working0: seq<Item>, commands: seq<string>)
    returns (working: seq<Item>, groups: seq<DuplicateGroup>)
    ensures working == Run(Session(0, false, working0, groups0), commands).working
    ensures groups == Run(Session(0, false, working0, groups0), commands).groups
  {
    ghost var final := Run(Session(0, false, working0, groups0), commands);
    var s := Session(0, false, working0, groups0);
    var next := 0;
    while s.gIdx < |s.groups| && !s.quit
      invariant 0 <= next <= |commands| && |s.groups| == |groups0|
      invariant Run(s, commands[next..]) == final
      decreases |commands| - next, |s.groups| - s.gIdx
    {
      s, next := PromptGroup(s, commands, next);
    }
    working, groups := s.working, s.groups;
  }

  /** The records of a list without null entries. */
  function Records(items: seq<Option<Item>>): (r: seq<Item>)
    requires forall i :: 0 <= i < |items| ==> items[i].Some?
    ensures Deduplicator.Present(r) == items
  {
    seq(|items|, i requires 0 <= i < |items| => items[i].value)
  }

  /**
   * The inspection step of `Main`: the duplicate groups of the deduplicated vault
   * are offered; when there are some and the answer is `y` (any case, trimmed), the
   * session runs and its working list replaces the vault's records.
   */
  method InspectDuplicates(vault: Vault, answer: string, commands: seq<string>)
    requires forall i :: 0 <= i < |vault.items| ==> vault.items[i].Some?
    modifies vault
    ensures vault.folders == old(vault.folders)
    ensures var groups := DuplicateGroupsOf(CompositeKey.ItemKey, old(vault.items));
            var working := Records(old(vault.items));
            vault.items == if |groups| > 0 && EqualsIgnoreCase(Some(Trim(answer)), Some("y"))
                           then Deduplicator.Present(Run(Session(0, false, working, groups), commands).working)
                           else old(vault.items)
  {
    var groups := FindDuplicateGroups(vault);
    if |groups| > 0 {
      var inspect := Trim(answer);
      if EqualsIgnoreCase(Some(inspect), Some("y")) {
        var itemsList := Records(vault.items);
        var workingOut, groupsOut := RunSession(groups, itemsList, commands);
        vault.items := Deduplicator.Present(workingOut);
      }
    }
  }
}
