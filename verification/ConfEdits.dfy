/**
 On every well-formed corosync.conf text the awk programs are list operations: lookup
 finds the id of the address, insert appends one entry, prune deletes exactly the
 entries of an address, and all other lines stay where they are.
 */
module ConfEdits {
  import opened Text
  import opened ConfText

  // ---- what a neutral line cannot be --------------------------------------

  lemma {:induction false} SkipBlankIsSuffix(s: string) returns (k: nat)
    ensures k <= |s| && SkipBlank(s) == s[k..]
  {
    if s != "" && IsBlank(s[0]) {
      var j := SkipBlankIsSuffix(s[1..]);
      k := j + 1;
    } else {
      k := 0;
    }
  }

  lemma Field1Occurs(line: string, name: string)
    requires Field1(line) == name
    ensures Find(line, name, 0) != -1
  {
    var k := SkipBlankIsSuffix(line);
    assert line[k..k + |name|] == line[k..][..|name|];
    assert At(line, name, k);
  }

  lemma NeutralFields(line: string)
    requires Neutral(line)
    ensures Field1(line) != "ring0_addr:" && Field1(line) != "nodeid:"
  {
    hide Field1, Find;
    Field1Occurs(line, Field1(line));
  }

  lemma ListCloseIsBlockClose(line: string)
    ensures ListClose(line) ==> BlockClose(line)
  {
  }

  lemma EntryLines(it: Item, rest: seq<string>)
    requires it.Entry?
    ensures ItemLines(it) + rest
      == [it.open] + (it.a + ([Upper(it)] + (it.b + ([Lower(it)] + (it.c + ([it.close] + rest))))))
  {
  }

  // ---- lookup -------------------------------------------------------------

  lemma LookupLine(line: string, rest: seq<string>, ip: string, found: bool)
    ensures LookupFrom([line] + rest, ip, found) ==
      (var now := found || IsRing(line, ip);
       if now && Field1(line) == "nodeid:" then Some(Field2(line)) else LookupFrom(rest, ip, now))
  {
    assert ([line] + rest)[1..] == rest;
  }

  lemma {:induction false} LookupNeutral(ls: seq<string>, rest: seq<string>, ip: string, found: bool)
    requires AllNeutral(ls)
    ensures LookupFrom(ls + rest, ip, found) == LookupFrom(rest, ip, found)
  {
    hide Neutral, Field1, Field2;
    if ls == [] {
      assert ls + rest == rest;
    } else {
      assert ls + rest == [ls[0]] + (ls[1..] + rest);
      NeutralFields(ls[0]);
      LookupLine(ls[0], ls[1..] + rest, ip, found);
      LookupNeutral(ls[1..], rest, ip, found);
    }
  }

  /** What the lookup makes of an item: its flag, if it is set there, stays set. */
  lemma LookupItem(it: Item, rest: seq<string>, ip: string, found: bool)
    requires GoodItem(it)
    ensures LookupFrom(ItemLines(it) + rest, ip, found) ==
      if it.Entry? && (found || (it.node.ip == ip && !it.idFirst)) then Some(Decimal(it.node.id))
      else LookupFrom(rest, ip, found || (it.Entry? && it.node.ip == ip))
  {
    hide Neutral, Field1, Field2, LookupFrom, NodeOpen, BlockClose, Find, Decimal, ItemLines;
    if it.Plain? {
      PlainLines(it);
      LookupNeutral([it.line], rest, ip, found);
    } else {
      EntryLines(it, rest);
      var r6 := [it.close] + rest;
      var r5 := it.c + r6;
      var r4 := [Lower(it)] + r5;
      var r3 := it.b + r4;
      var r2 := [Upper(it)] + r3;
      OpenFields(it.open);
      LookupLine(it.open, it.a + r2, ip, found);
      LookupNeutral(it.a, r2, ip, found);
      LookupLine(Upper(it), r3, ip, found);
      var now := found || (!it.idFirst && it.node.ip == ip);
      LookupNeutral(it.b, r4, ip, now);
      LookupLine(Lower(it), r5, ip, now);
      var after := found || it.node.ip == ip;
      LookupNeutral(it.c, r6, ip, after);
      NeutralFields(it.close);
      LookupLine(it.close, rest, ip, after);
    }
  }

  lemma OpenFields(line: string)
    requires Find(line, "ring0_addr:", 0) == -1 && Find(line, "nodeid:", 0) == -1
    ensures Field1(line) != "ring0_addr:" && Field1(line) != "nodeid:"
  {
    hide Field1, Find;
    Field1Occurs(line, Field1(line));
  }

  lemma NodesCons(items: seq<Item>, ip: string)
    requires items != []
    ensures var rest := ItemNodes(items[1..]);
      if items[0].Entry? then
        && ItemNodes(items) == [items[0].node] + rest
        && IdOf(ItemNodes(items), ip) == (if items[0].node.ip == ip then Some(items[0].node.id) else IdOf(rest, ip))
        && Without(ItemNodes(items), ip) == (if items[0].node.ip == ip then [] else [items[0].node]) + Without(rest, ip)
      else ItemNodes(items) == rest
  {
    if items[0].Entry? {
      assert ItemNodes(items)[1..] == ItemNodes(items[1..]);
    } else {
      assert [] + ItemNodes(items[1..]) == ItemNodes(items[1..]);
    }
  }

  /** Decimal text of an id that was found. */
  function IdText(id: Option<nat>): Option<string> { if id.Some? then Some(Decimal(id.value)) else None }

  lemma {:induction false} LookupItems(items: seq<Item>, rest: seq<string>, ip: string, found: bool)
    requires (forall i :: 0 <= i < |items| ==> GoodItem(items[i])) && forall f :: LookupFrom(rest, ip, f) == None
    ensures LookupFrom(ItemsLines(items) + rest, ip, found) ==
      IdText(if found then FirstId(ItemNodes(items)) else NextIdOf(items, ip))
  {
    hide GoodItem, LookupFrom, ItemLines, Decimal;
    if items == [] {
      assert ItemsLines(items) + rest == rest;
    } else {
      assert ItemsLines(items) + rest == ItemLines(items[0]) + (ItemsLines(items[1..]) + rest);
      LookupItem(items[0], ItemsLines(items[1..]) + rest, ip, found);
      LookupItems(items[1..], rest, ip, found || (items[0].Entry? && items[0].node.ip == ip));
      NodesCons(items, ip);
    }
  }

  /** Looking up an address finds the first id at or after its line, compared whole, and nothing for an address not listed. */
  lemma LookupIsNextId(c: Conf, ip: string)
    requires WellFormed(c)
    ensures LookupFrom(Render(c), ip, false) == IdText(NextIdOf(c.items, ip))
  {
    hide Neutral, LookupFrom, GoodItem, ItemsLines, Decimal;
    var r3 := [c.closing] + c.tail;
    var r2 := ItemsLines(c.items) + r3;
    LookupNeutral(c.head, [c.opening] + r2, ip, false);
    LookupNeutral([c.opening], r2, ip, false);
    forall f ensures LookupFrom(r3, ip, f) == None {
      LookupNeutral([c.closing], c.tail, ip, f);
      assert c.tail == c.tail + [];
      LookupNeutral(c.tail, [], ip, f);
      LookupEmpty(ip, f);
    }
    LookupItems(c.items, r3, ip, false);
  }

  lemma {:induction false} OwnIdExactly(items: seq<Item>, ip: string)
    ensures NextIdOf(items, ip) == IdOf(ItemNodes(items), ip) <==> !RunsOn(items, ip)
  {
    if items != [] {
      NodesCons(items, ip);
      OwnIdExactly(items[1..], ip);
    }
  }

  lemma IdTextInjective(a: Option<nat>, b: Option<nat>)
    requires IdText(a) == IdText(b)
    ensures a == b
  {
    hide Decimal;
    if a.Some? && b.Some? { DecimalInjective(a.value, b.value); }
  }

  /**
   Looking up an address finds the id of its own entry, compared whole, and nothing for an
   address not listed, exactly when its block does not name its id first and run on.
   */
  lemma LookupIsIdOf(c: Conf, ip: string)
    requires WellFormed(c)
    ensures LookupFrom(Render(c), ip, false) == IdText(IdOf(Nodes(c), ip)) <==> !RunsOn(c.items, ip)
  {
    hide WellFormed, LookupFrom, Render, IdText, IdOf, RunsOn, NextIdOf, ItemNodes;
    LookupIsNextId(c, ip);
    OwnIdExactly(c.items, ip);
    if IdText(NextIdOf(c.items, ip)) == IdText(IdOf(Nodes(c), ip)) {
      IdTextInjective(NextIdOf(c.items, ip), IdOf(Nodes(c), ip));
    }
  }

  lemma {:induction false} NeverRunsOn(items: seq<Item>, ip: string)
    requires forall i :: 0 <= i < |items| ==> items[i].Entry? ==> !items[i].idFirst
    ensures !RunsOn(items, ip)
  {
    if items != [] {
      forall i | 0 <= i < |items[1..]| ensures items[1..][i].Entry? ==> !items[1..][i].idFirst {
        assert items[1..][i] == items[i + 1];
      }
      NeverRunsOn(items[1..], ip);
    }
  }

  lemma LookupInOrder(c: Conf, ip: string)
    requires WellFormed(c) && RingsFirst(c)
    ensures LookupFrom(Render(c), ip, false) == IdText(IdOf(Nodes(c), ip))
  {
    hide WellFormed, LookupFrom, Render, IdText, IdOf, RunsOn, ItemNodes;
    NeverRunsOn(c.items, ip);
    LookupIsIdOf(c, ip);
  }

  lemma LookupEmpty(ip: string, found: bool)
    ensures LookupFrom([], ip, found) == None
  {
  }

  // ---- the patterns -------------------------------------------------------

  /** The list begins at any line that starts with its name, and ends at any that starts with a closing brace. */
  lemma ListLines(rest: string)
    ensures ListOpen("nodelist" + rest) && ListClose("}" + rest)
  {
  }

  /** A node block opens with its name, white space or none, and a brace, and closes with a brace, indented or not. */
  lemma BlockLines(before: string, between: string, rest: string)
    requires AllSpace(before) && AllSpace(between)
    ensures NodeOpen(before + ("node" + (between + ("{" + rest)))) && BlockClose(before + ("}" + rest))
  {
    var u := between + ("{" + rest);
    SkipsSpaces(before, "node" + u);
    SkipsSpaces(between, "{" + rest);
    assert ("node" + u)[4..] == u;
    SkipsSpaces(before, "}" + rest);
  }

  // ---- insert -------------------------------------------------------------

  /** Lines the insert program only copies. */
  lemma {:induction false} InsertCopies(ls: seq<string>, rest: seq<string>, ip: string, id: nat, inserted: bool, found: bool)
    requires !inserted ==>
      if found then forall i :: 0 <= i < |ls| ==> !ListClose(ls[i]) else forall i :: 0 <= i < |ls| ==> !ListOpen(ls[i])
    requires inserted ==> found
    ensures InsertFrom(ls + rest, ip, id, inserted, found) == ls + InsertFrom(rest, ip, id, inserted, found)
  {
    hide NewLines, ListClose, ListOpen;
    if ls == [] {
      assert ls + rest == rest;
    } else {
      var tail := ls[1..] + rest;
      assert (ls + rest)[1..] == tail;
      InsertCopies(ls[1..], rest, ip, id, inserted, found);
      assert [ls[0]] + (ls[1..] + InsertFrom(rest, ip, id, inserted, found)) == ls + InsertFrom(rest, ip, id, inserted, found);
    }
  }

  lemma {:induction false} NoListClose(items: seq<Item>)
    requires forall i :: 0 <= i < |items| ==> GoodItem(items[i])
    ensures forall i :: 0 <= i < |ItemsLines(items)| ==> !ListClose(ItemsLines(items)[i])
  {
    if items != [] {
      NoListClose(items[1..]);
      NoListCloseInItem(items[0]);
    }
  }

  lemma NoListCloseInItem(it: Item)
    requires GoodItem(it)
    ensures forall i :: 0 <= i < |ItemLines(it)| ==> !ListClose(ItemLines(it)[i])
  {
    hide ListClose, BlockClose, Neutral, NodeOpen, Field1, Field2, Find;
    if it.Entry? {
      forall line ensures ListClose(line) ==> BlockClose(line) {
        ListCloseIsBlockClose(line);
      }
    }
  }

  lemma Assoc<T>(a: seq<T>, b: seq<T>, c: seq<T>)
    ensures a + b + c == a + (b + c)
  {
  }

  lemma {:induction false} ItemsLinesAppend(a: seq<Item>, b: seq<Item>)
    ensures ItemsLines(a + b) == ItemsLines(a) + ItemsLines(b)
  {
    hide ItemLines;
    if a == [] {
      assert a + b == b;
    } else {
      assert (a + b)[1..] == a[1..] + b;
      ItemsLinesAppend(a[1..], b);
      Assoc(ItemLines(a[0]), ItemsLines(a[1..]), ItemsLines(b));
    }
  }

  lemma {:induction false} ItemNodesAppend(a: seq<Item>, b: seq<Item>)
    ensures ItemNodes(a + b) == ItemNodes(a) + ItemNodes(b)
  {
    if a == [] {
      assert a + b == b;
    } else {
      assert (a + b)[1..] == a[1..] + b;
      ItemNodesAppend(a[1..], b);
      Assoc(if a[0].Entry? then [a[0].node] else [], ItemNodes(a[1..]), ItemNodes(b));
    }
  }

  lemma NewEntryLines(ip: string, id: nat)
    ensures [""] + ItemLines(NewEntry(ip, id)) == NewLines(ip, id)
  {
    hide Decimal;
  }

  lemma NewItems(ip: string, id: nat)
    ensures ItemsLines([Plain(""), NewEntry(ip, id)]) == NewLines(ip, id)
    ensures ItemNodes([Plain(""), NewEntry(ip, id)]) == [Node(ip, id)]
  {
    var e := NewEntry(ip, id);
    NewEntryLines(ip, id);
    PlainLines(Plain(""));
    NodesCons([Plain(""), e], ip);
    NodesCons([e], ip);
    hide ItemLines, NewLines, Decimal, IdOf, Without;
    assert [Plain(""), e][1..] == [e] && [e][1..] == [];
    assert ItemsLines([e]) == ItemLines(e) + ItemsLines([]);
    assert ItemLines(e) + [] == ItemLines(e);
  }

  /** Insert adds one blank line and one entry at the end of the node list and copies every other line. */
  lemma InsertIsAppend(c: Conf, ip: string, id: nat)
    requires WellFormed(c)
    ensures InsertFrom(Render(c), ip, id, false, false) == Render(Inserted(c, ip, id))
    ensures Nodes(Inserted(c, ip, id)) == Nodes(c) + [Node(ip, id)]
  {
    hide Neutral, GoodItem, ItemsLines, NewLines, NewEntry, InsertFrom;
    var r3 := [c.closing] + c.tail;
    var r2 := ItemsLines(c.items) + r3;
    InsertCopies(c.head, [c.opening] + r2, ip, id, false, false);
    InsertOpening(c.opening, r2, ip, id);
    NoListClose(c.items);
    InsertCopies(ItemsLines(c.items), r3, ip, id, false, true);
    InsertClosing(c.closing, c.tail, ip, id);
    ItemsLinesAppend(c.items, [Plain(""), NewEntry(ip, id)]);
    ItemNodesAppend(c.items, [Plain(""), NewEntry(ip, id)]);
    NewItems(ip, id);
    assert ItemsLines(c.items) + (NewLines(ip, id) + r3) == ItemsLines(c.items) + NewLines(ip, id) + r3;
  }

  lemma InsertOpening(opening: string, rest: seq<string>, ip: string, id: nat)
    requires ListOpen(opening)
    ensures InsertFrom([opening] + rest, ip, id, false, false) == [opening] + InsertFrom(rest, ip, id, false, true)
  {
    hide NewLines;
    assert ([opening] + rest)[1..] == rest;
  }

  lemma InsertClosing(closing: string, tail: seq<string>, ip: string, id: nat)
    requires ListClose(closing)
    ensures InsertFrom([closing] + tail, ip, id, false, true) == NewLines(ip, id) + ([closing] + tail)
  {
    hide NewLines;
    assert ([closing] + tail)[1..] == tail;
    assert tail + [] == tail;
    InsertCopies(tail, [], ip, id, true, true);
    assert InsertFrom([], ip, id, true, true) == [];
  }

  // ---- prune --------------------------------------------------------------

  /** Outside a block the buffer and the flag do not matter. */
  lemma {:induction false} PruneForgets(lines: seq<string>, ip: string, buf: seq<string>, d: bool)
    ensures PruneFrom(lines, ip, false, buf, d) == PruneFrom(lines, ip, false, [], false)
  {
    hide NodeOpen, BlockClose, IsRing;
    if lines != [] {
      PruneForgets(lines[1..], ip, buf, d);
    }
  }

  lemma {:induction false} PruneCopies(ls: seq<string>, rest: seq<string>, ip: string)
    requires forall i :: 0 <= i < |ls| ==> !NodeOpen(ls[i])
    ensures PruneFrom(ls + rest, ip, false, [], false) == ls + PruneFrom(rest, ip, false, [], false)
  {
    hide NodeOpen, BlockClose, IsRing;
    if ls == [] {
      assert ls + rest == rest;
    } else {
      assert (ls + rest)[1..] == ls[1..] + rest;
      PruneCopies(ls[1..], rest, ip);
    }
  }

  lemma PruneInside(line: string, rest: seq<string>, ip: string, buf: seq<string>, dead: bool)
    requires !NodeOpen(line) && !BlockClose(line)
    ensures PruneFrom([line] + rest, ip, true, buf, dead) == PruneFrom(rest, ip, true, buf + [line], dead || IsRing(line, ip))
  {
    hide NodeOpen, BlockClose, IsRing;
    assert ([line] + rest)[1..] == rest;
  }

  lemma {:induction false} PruneInterior(ls: seq<string>, rest: seq<string>, ip: string, buf: seq<string>, dead: bool)
    requires Interior(ls)
    ensures PruneFrom(ls + rest, ip, true, buf, dead) == PruneFrom(rest, ip, true, buf + ls, dead)
  {
    hide NodeOpen, BlockClose, PruneFrom, Field1, Field2, Find;
    if ls == [] {
      assert ls + rest == rest && buf + ls == buf;
    } else {
      assert ls + rest == [ls[0]] + (ls[1..] + rest);
      NeutralFields(ls[0]);
      PruneInside(ls[0], ls[1..] + rest, ip, buf, dead);
      PruneInterior(ls[1..], rest, ip, buf + [ls[0]], dead);
      assert buf + [ls[0]] + ls[1..] == buf + ls;
    }
  }

  lemma PruneOpen(line: string, rest: seq<string>, ip: string)
    requires NodeOpen(line)
    ensures PruneFrom([line] + rest, ip, false, [], false) == PruneFrom(rest, ip, true, [line], false)
  {
    hide NodeOpen;
    assert ([line] + rest)[1..] == rest;
  }

  lemma PruneClose(line: string, rest: seq<string>, ip: string, buf: seq<string>, dead: bool)
    requires !NodeOpen(line) && BlockClose(line) && !IsRing(line, ip)
    ensures PruneFrom([line] + rest, ip, true, buf, dead) ==
      (if dead then [] else buf + [line]) + PruneFrom(rest, ip, false, [], false)
  {
    hide NodeOpen, BlockClose, IsRing;
    assert ([line] + rest)[1..] == rest;
    PruneForgets(rest, ip, [], dead);
  }

  lemma PruneItem(it: Item, rest: seq<string>, ip: string)
    requires GoodItem(it)
    ensures PruneFrom(ItemLines(it) + rest, ip, false, [], false) ==
      (if it.Entry? && it.node.ip == ip then [] else ItemLines(it)) + PruneFrom(rest, ip, false, [], false)
  {
    hide NodeOpen, BlockClose, PruneFrom, Field1, Field2, Find, Decimal, ItemLines;
    if it.Plain? {
      PlainLines(it);
      PruneCopies([it.line], rest, ip);
    } else {
      EntryLines(it, rest);
      EntryLines(it, []);
      assert ItemLines(it) + [] == ItemLines(it);
      var r6 := [it.close] + rest;
      var r5 := it.c + r6;
      var r4 := [Lower(it)] + r5;
      var r3 := it.b + r4;
      var r2 := [Upper(it)] + r3;
      var dead := !it.idFirst && it.node.ip == ip;
      PruneOpen(it.open, it.a + r2, ip);
      PruneInterior(it.a, r2, ip, [it.open], false);
      PruneInside(Upper(it), r3, ip, [it.open] + it.a, false);
      var b3 := [it.open] + it.a + [Upper(it)];
      PruneInterior(it.b, r4, ip, b3, dead);
      PruneInside(Lower(it), r5, ip, b3 + it.b, dead);
      var b5 := b3 + it.b + [Lower(it)];
      PruneInterior(it.c, r6, ip, b5, it.node.ip == ip);
      NeutralFields(it.close);
      PruneClose(it.close, rest, ip, b5 + it.c, it.node.ip == ip);
      SameEntry(it, b5 + it.c + [it.close]);
    }
  }

  lemma PlainLines(it: Item)
    requires it.Plain?
    ensures ItemLines(it) == [it.line]
  {
  }

  lemma SameEntry(it: Item, buf: seq<string>)
    requires it.Entry? && buf == [it.open] + it.a + [Upper(it)] + it.b + [Lower(it)] + it.c + [it.close]
    ensures buf == ItemLines(it)
  {
  }

  lemma {:induction false} PruneItems(items: seq<Item>, rest: seq<string>, ip: string)
    requires forall i :: 0 <= i < |items| ==> GoodItem(items[i])
    ensures PruneFrom(ItemsLines(items) + rest, ip, false, [], false)
      == ItemsLines(ItemsWithout(items, ip)) + PruneFrom(rest, ip, false, [], false)
  {
    hide GoodItem, PruneFrom, ItemLines, ItemUnless;
    var after := PruneFrom(rest, ip, false, [], false);
    if items == [] {
      assert ItemsLines(items) + rest == rest;
      assert ItemsLines([]) + after == after;
    } else {
      var others := ItemsWithout(items[1..], ip);
      Assoc(ItemLines(items[0]), ItemsLines(items[1..]), rest);
      PruneItem(items[0], ItemsLines(items[1..]) + rest, ip);
      PruneItems(items[1..], rest, ip);
      ItemsLinesAppend(ItemUnless(items[0], ip), others);
      KeptLines(items[0], ip);
      Assoc(ItemsLines(ItemUnless(items[0], ip)), ItemsLines(others), after);
    }
  }

  lemma KeptLines(it: Item, ip: string)
    ensures ItemsLines(ItemUnless(it, ip)) == if it.Entry? && it.node.ip == ip then [] else ItemLines(it)
  {
    hide ItemLines;
    assert [it][1..] == [] && ItemLines(it) + [] == ItemLines(it);
  }

  lemma {:induction false} WithoutNodes(items: seq<Item>, ip: string)
    ensures ItemNodes(ItemsWithout(items, ip)) == Without(ItemNodes(items), ip)
  {
    if items != [] {
      var it := items[0];
      WithoutNodes(items[1..], ip);
      ItemNodesAppend(ItemUnless(it, ip), ItemsWithout(items[1..], ip));
      assert [it][1..] == [];
      NodesCons(items, ip);
    }
  }

  lemma {:induction false} WithoutGood(items: seq<Item>, ip: string)
    requires forall i :: 0 <= i < |items| ==> GoodItem(items[i])
    ensures forall i :: 0 <= i < |ItemsWithout(items, ip)| ==> GoodItem(ItemsWithout(items, ip)[i]) && ItemsWithout(items, ip)[i] in items
  {
    hide GoodItem;
    if items != [] { WithoutGood(items[1..], ip); }
  }

  /** Prune deletes exactly the blocks of an address and copies every other line. */
  lemma PruneIsWithout(c: Conf, ip: string)
    requires WellFormed(c)
    ensures PruneFrom(Render(c), ip, false, [], false) == Render(Pruned(c, ip))
    ensures WellFormed(Pruned(c, ip)) && Nodes(Pruned(c, ip)) == Without(Nodes(c), ip)
    ensures RingsFirst(c) ==> RingsFirst(Pruned(c, ip))
  {
    hide NodeOpen, Find, GoodItem, PruneFrom, ItemsLines;
    var r3 := [c.closing] + c.tail;
    var r2 := ItemsLines(c.items) + r3;
    PruneCopies(c.head, [c.opening] + r2, ip);
    PruneCopies([c.opening], r2, ip);
    PruneItems(c.items, r3, ip);
    WithoutNodes(c.items, ip);
    WithoutGood(c.items, ip);
    PruneCopies([c.closing], c.tail, ip);
    assert c.tail + [] == c.tail;
    PruneCopies(c.tail, [], ip);
    PruneEmpty(ip);
  }

  /** A block that another one interrupts, or that the text does not close, is lost whatever its address. */
  lemma PruneLosesOpen(open: string, ls: seq<string>, rest: seq<string>, ip: string)
    requires NodeOpen(open) && Interior(ls) && (rest == [] || NodeOpen(rest[0]))
    ensures PruneFrom([open] + (ls + rest), ip, false, [], false) == PruneFrom(rest, ip, false, [], false)
  {
    hide NodeOpen, BlockClose, Field1, Field2, Find, IsRing;
    PruneOpen(open, ls + rest, ip);
    PruneInterior(ls, rest, ip, [open], false);
  }

  lemma PruneEmpty(ip: string)
    ensures PruneFrom([], ip, false, [], false) == []
  {
  }

  // ---- a new entry is well formed -----------------------------------------

  /** A dotted quad: digits and dots. */
  predicate IsAddress(ip: string) {
    ip != "" && forall i :: 0 <= i < |ip| ==> IsDigit(ip[i]) || ip[i] == '.'
  }

  lemma {:induction false} AwkWordAll(w: string)
    requires forall i :: 0 <= i < |w| ==> !IsBlank(w[i])
    ensures AwkWord(w) == w
  {
    if w != "" { AwkWordAll(w[1..]); }
  }

  lemma {:induction false} SpacesSkipped(pad: string, s: string)
    requires s != "" && !IsSpace(s[0]) && forall i :: 0 <= i < |pad| ==> pad[i] == ' '
    ensures SkipBlank(pad + s) == s && SkipSpace(pad + s) == s
  {
    if pad == "" {
      assert pad + s == s;
    } else {
      assert (pad + s)[1..] == pad[1..] + s;
      SpacesSkipped(pad[1..], s);
    }
  }

  lemma EightSpaces(s: string)
    requires s != "" && !IsSpace(s[0])
    ensures SkipBlank("        " + s) == s && SkipSpace("        " + s) == s
  {
    SpacesSkipped("        ", s);
  }

  lemma {:induction false} AwkWordIs(w: string, rest: string)
    requires forall i :: 0 <= i < |w| ==> !IsBlank(w[i])
    requires rest != "" && IsBlank(rest[0])
    ensures AwkWord(w + rest) == w
  {
    if w == "" {
      assert w + rest == rest;
    } else {
      assert (w + rest)[1..] == w[1..] + rest;
      AwkWordIs(w[1..], rest);
    }
  }

  /** The fields and the shape of an indented `name value` line. */
  lemma SettingLine(name: string, value: string)
    requires name != "" && value != ""
    requires forall i :: 0 <= i < |name| ==> !IsBlank(name[i]) && !IsSpace(name[i])
    requires forall i :: 0 <= i < |value| ==> !IsBlank(value[i])
    ensures var line := "        " + (name + " " + value);
      Field1(line) == name && Field2(line) == value && SkipSpace(line) == name + " " + value
  {
    var t := name + (" " + value);
    assert name + " " + value == t && t[0] == name[0];
    EightSpaces(t);
    AwkWordIs(name, " " + value);
    assert t[|name|..] == " " + value;
    assert (" " + value)[1..] == value;
    assert SkipBlank(value) == value;
    AwkWordAll(value);
  }

  lemma NoMatch(line: string, pat: string, j: nat)
    requires j < |pat| && forall i :: 0 <= i < |line| ==> line[i] != pat[j]
    ensures Find(line, pat, 0) == -1
  {
    forall i: nat ensures !At(line, pat, i) {
      NotAt(line, pat, i, j);
    }
  }

  lemma NewRingLine(ip: string)
    requires IsAddress(ip)
    ensures IsSetting("        ring0_addr: " + ip, "ring0_addr:", ip)
    ensures Find("        ring0_addr: " + ip, "nodeid:", 0) == -1
  {
    hide Field1, Field2, SkipSpace, Find;
    var line := "        ring0_addr: " + ip;
    assert line == "        " + ("ring0_addr:" + " " + ip);
    SettingLine("ring0_addr:", ip);
    NoMatch(line, "nodeid:", 1);
  }

  lemma NewNameLine(ip: string)
    requires IsAddress(ip)
    ensures Neutral("        name: " + ip) && !BlockClose("        name: " + ip)
    ensures Field1("        name: " + ip) == "name:" && Field2("        name: " + ip) == ip
  {
    hide Field1, Field2, SkipSpace, Find;
    var line := "        name: " + ip;
    assert line == "        " + ("name:" + " " + ip);
    SettingLine("name:", ip);
    assert ("name:" + " " + ip)[1] == 'a';
    NoMatch(line, "nodeid:", 1);
    NoMatch(line, "ring0_addr:", 0);
  }

  lemma NewIdLine(id: nat)
    ensures IsSetting("        nodeid: " + Decimal(id), "nodeid:", Decimal(id))
    ensures Find("        nodeid: " + Decimal(id), "ring0_addr:", 0) == -1
  {
    var d := Decimal(id);
    hide Field1, Field2, Find, Decimal;
    var line := "        nodeid: " + d;
    assert line == "        " + ("nodeid:" + " " + d);
    SettingLine("nodeid:", d);
    assert ("nodeid:" + " " + d)[4..][0] == 'i';
    NoMatch(line, "ring0_addr:", 0);
  }

  lemma NewOpenLine()
    ensures NodeOpen("    node {") && !ListClose("    node {")
    ensures Find("    node {", "ring0_addr:", 0) == -1 && Find("    node {", "nodeid:", 0) == -1
  {
    hide Find;
    NoMatch("    node {", "ring0_addr:", 0);
    NoMatch("    node {", "nodeid:", 4);
  }

  lemma NewCloseLine()
    ensures Neutral("    }") && BlockClose("    }") && !ListClose("    }")
  {
    hide Find;
    NoMatch("    }", "ring0_addr:", 0);
    NoMatch("    }", "nodeid:", 0);
  }

  lemma BlankLine()
    ensures Neutral("") && !ListClose("")
  {
    hide Find;
    NoMatch("", "ring0_addr:", 0);
    NoMatch("", "nodeid:", 0);
  }

  lemma NewEntryGood(ip: string, id: nat)
    requires IsAddress(ip)
    ensures GoodItem(NewEntry(ip, id)) && GoodItem(Plain(""))
  {
    hide NodeOpen, BlockClose, ListClose, Find, Neutral, IsSetting, Decimal;
    NewOpenLine();
    NewRingLine(ip);
    NewNameLine(ip);
    NewIdLine(id);
    NewCloseLine();
    BlankLine();
  }

  /** The new block also names its node by the address. */
  lemma NewEntryNames(ip: string, id: nat)
    requires IsAddress(ip)
    ensures var e := NewEntry(ip, id); |e.b| == 1 && Field1(e.b[0]) == "name:" && Field2(e.b[0]) == ip
  {
    hide Field1, Field2;
    NewNameLine(ip);
  }

  /** Inserting keeps the text well formed. */
  lemma InsertedWellFormed(c: Conf, ip: string, id: nat)
    requires WellFormed(c) && IsAddress(ip)
    ensures WellFormed(Inserted(c, ip, id)) && (RingsFirst(c) ==> RingsFirst(Inserted(c, ip, id)))
  {
    hide GoodItem, Neutral;
    NewEntryGood(ip, id);
  }

  // ---- insert, then prune -------------------------------------------------

  lemma {:induction false} WithoutAbsent(items: seq<Item>, ip: string)
    requires forall i :: 0 <= i < |items| ==> items[i].Entry? ==> items[i].node.ip != ip
    ensures ItemsWithout(items, ip) == items
  {
    if items != [] {
      WithoutAbsent(items[1..], ip);
      assert items == [items[0]] + items[1..];
    }
  }

  lemma {:induction false} WithoutAppend(a: seq<Item>, b: seq<Item>, ip: string)
    ensures ItemsWithout(a + b, ip) == ItemsWithout(a, ip) + ItemsWithout(b, ip)
  {
    hide ItemUnless;
    if a == [] {
      assert a + b == b;
    } else {
      assert (a + b)[1..] == a[1..] + b;
      WithoutAppend(a[1..], b, ip);
      Assoc(ItemUnless(a[0], ip), ItemsWithout(a[1..], ip), ItemsWithout(b, ip));
    }
  }

  /** Pruning a freshly inserted address gives the old text back, up to one blank line at the end of the node list. */
  lemma InsertThenPrune(c: Conf, ip: string, id: nat)
    requires WellFormed(c) && IsAddress(ip)
    requires forall i :: 0 <= i < |c.items| ==> c.items[i].Entry? ==> c.items[i].node.ip != ip
    ensures PruneFrom(InsertFrom(Render(c), ip, id, false, false), ip, false, [], false)
      == Render(c.(items := c.items + [Plain("")]))
  {
    hide WellFormed, Render, InsertFrom, PruneFrom;
    InsertIsAppend(c, ip, id);
    InsertedWellFormed(c, ip, id);
    PruneIsWithout(Inserted(c, ip, id), ip);
    WithoutAbsent(c.items, ip);
    var added := [Plain(""), NewEntry(ip, id)];
    WithoutAppend(c.items, added, ip);
    assert added[1..] == [NewEntry(ip, id)] && added[1..][1..] == [];
    assert ItemsWithout([NewEntry(ip, id)], ip) == [];
    assert ItemsWithout(added, ip) == [Plain("")];
  }

  // ---- reading addresses and ids ------------------------------------------

  /** The ids of the nodes as decimal text, in order. */
  function IdsAsText(nodes: seq<Node>): seq<string> {
    seq(|nodes|, i requires 0 <= i < |nodes| => Decimal(nodes[i].id))
  }

  lemma {:induction false} RingAppend(a: seq<string>, b: seq<string>)
    ensures RingAddresses(a + b) == RingAddresses(a) + RingAddresses(b)
  {
    hide Matched;
    if a == [] {
      assert a + b == b;
    } else {
      assert (a + b)[1..] == a[1..] + b;
      RingAppend(a[1..], b);
      Assoc(Matched(a[0], "ring0_addr:"), RingAddresses(a[1..]), RingAddresses(b));
    }
  }

  lemma {:induction false} IdTextAppend(a: seq<string>, b: seq<string>)
    ensures IdTexts(a + b) == IdTexts(a) + IdTexts(b)
  {
    hide Matched;
    if a == [] {
      assert a + b == b;
    } else {
      assert (a + b)[1..] == a[1..] + b;
      IdTextAppend(a[1..], b);
      Assoc(Matched(a[0], "nodeid:"), IdTexts(a[1..]), IdTexts(b));
    }
  }

  lemma GrepAppend(a: seq<string>, b: seq<string>)
    ensures RingAddresses(a + b) == RingAddresses(a) + RingAddresses(b)
    ensures IdTexts(a + b) == IdTexts(a) + IdTexts(b)
  {
    RingAppend(a, b);
    IdTextAppend(a, b);
  }

  lemma {:induction false} GrepNeutral(ls: seq<string>)
    requires AllNeutral(ls)
    ensures RingAddresses(ls) == [] && IdTexts(ls) == []
  {
    hide Find, Field2, NodeOpen;
    if ls != [] { GrepNeutral(ls[1..]); }
  }

  lemma GrepOne(line: string)
    ensures RingAddresses([line]) == Matched(line, "ring0_addr:") && IdTexts([line]) == Matched(line, "nodeid:")
  {
    hide Matched;
    assert [line][1..] == [];
    assert RingAddresses([line]) == Matched(line, "ring0_addr:") + [] && IdTexts([line]) == Matched(line, "nodeid:") + [];
  }

  lemma GrepItem(it: Item)
    requires GoodItem(it)
    ensures RingAddresses(ItemLines(it)) == (if it.Entry? then [it.node.ip] else [])
    ensures IdTexts(ItemLines(it)) == (if it.Entry? then [Decimal(it.node.id)] else [])
  {
    hide Find, Field1, Field2, NodeOpen, BlockClose, Decimal, RingAddresses, IdTexts;
    if it.Plain? {
      GrepNeutral([it.line]);
    } else {
      var l1 := [it.open] + it.a;
      var l2 := l1 + [Upper(it)];
      var l3 := l2 + it.b;
      var l4 := l3 + [Lower(it)];
      var l5 := l4 + it.c;
      GrepAppend([it.open], it.a);
      GrepAppend(l1, [Upper(it)]);
      GrepAppend(l2, it.b);
      GrepAppend(l3, [Lower(it)]);
      GrepAppend(l4, it.c);
      GrepAppend(l5, [it.close]);
      GrepOne(it.open);
      GrepOne(it.ring);
      GrepOne(it.idLine);
      GrepOne(it.close);
      GrepNeutral(it.a);
      GrepNeutral(it.b);
      GrepNeutral(it.c);
      Field1Occurs(it.ring, "ring0_addr:");
      Field1Occurs(it.idLine, "nodeid:");
    }
  }

  lemma {:induction false} GrepItems(items: seq<Item>)
    requires forall i :: 0 <= i < |items| ==> GoodItem(items[i])
    ensures RingAddresses(ItemsLines(items)) == Addresses(ItemNodes(items))
    ensures IdTexts(ItemsLines(items)) == IdsAsText(ItemNodes(items))
  {
    hide GoodItem, RingAddresses, IdTexts, ItemLines, Decimal, Addresses, IdsAsText;
    if items == [] {
      GrepNeutral([]);
      NoNodes();
    } else {
      var own := if items[0].Entry? then [items[0].node] else [];
      GrepItem(items[0]);
      GrepItems(items[1..]);
      GrepAppend(ItemLines(items[0]), ItemsLines(items[1..]));
      AddressesAppend(own, ItemNodes(items[1..]));
      if items[0].Entry? { OneNode(items[0].node); } else { NoNodes(); }
    }
  }

  lemma NoNodes()
    ensures Addresses([]) == [] && IdsAsText([]) == []
  {
  }

  lemma OneNode(n: Node)
    ensures Addresses([n]) == [n.ip] && IdsAsText([n]) == [Decimal(n.id)]
  {
  }

  lemma AddressesAppend(a: seq<Node>, b: seq<Node>)
    ensures Addresses(a + b) == Addresses(a) + Addresses(b) && IdsAsText(a + b) == IdsAsText(a) + IdsAsText(b)
  {
    hide Decimal;
  }

  /** The grep pipelines read exactly the addresses and the ids of the node list, in order. */
  lemma GrepReadsNodes(c: Conf)
    requires WellFormed(c)
    ensures RingAddresses(Render(c)) == Addresses(Nodes(c))
    ensures IdTexts(Render(c)) == IdsAsText(Nodes(c))
  {
    hide Neutral, GoodItem, RingAddresses, IdTexts, ItemsLines, Decimal;
    var r3 := [c.closing] + c.tail;
    var r2 := ItemsLines(c.items) + r3;
    GrepAppend(c.head, [c.opening] + r2);
    GrepAppend([c.opening], r2);
    GrepAppend(ItemsLines(c.items), r3);
    GrepAppend([c.closing], c.tail);
    GrepNeutral(c.head);
    GrepNeutral([c.opening]);
    GrepNeutral([c.closing]);
    GrepNeutral(c.tail);
    GrepItems(c.items);
  }
}
