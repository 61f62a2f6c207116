/**
 The text of corosync.conf as a sequence of lines, and the three awk programs the
 watcher runs on it: look up a node id, insert a node block, delete the blocks of an
 address. `Conf` is the structure of a well-formed text; the theorems say that on every
 such text the programs are list operations on its (address, id) pairs.
 */
module ConfText {
  import opened Text

  datatype Node = Node(ip: string, id: nat)

  // ---- what awk sees in a line --------------------------------------------

  function AwkWord(s: string): (w: string)
    ensures w <= s
  {
    if s == "" || IsBlank(s[0]) then "" else [s[0]] + AwkWord(s[1..])
  }

  /** $1 */
  function Field1(line: string): string { AwkWord(SkipBlank(line)) }

  /** $2 */
  function Field2(line: string): string {
    AwkWord(SkipBlank(SkipBlank(line)[|Field1(line)|..]))
  }

  /** `/^}/` */
  predicate ListClose(line: string) { line != "" && line[0] == '}' }

  /** `/^nodelist/` */
  predicate ListOpen(line: string) { "nodelist" <= line }

  /** `/^[[:space:]]*node[[:space:]]*\{/` */
  predicate NodeOpen(line: string) {
    var t := SkipSpace(line);
    "node" <= t && var u := SkipSpace(t[4..]); u != "" && u[0] == '{'
  }

  /** `/^[[:space:]]*\}/` */
  predicate BlockClose(line: string) {
    var t := SkipSpace(line);
    t != "" && t[0] == '}'
  }

  predicate IsRing(line: string, ip: string) { Field1(line) == "ring0_addr:" && Field2(line) == ip }

  // ---- the awk programs ---------------------------------------------------

  /** The lookup program from some line on, with its `found` flag. */
  function LookupFrom(lines: seq<string>, ip: string, found: bool): Option<string> {
    if lines == [] then None else
    var now := found || IsRing(lines[0], ip);
    if now && Field1(lines[0]) == "nodeid:" then Some(Field2(lines[0])) else LookupFrom(lines[1..], ip, now)
  }

  method Lookup(lines: seq<string>, ip: string) returns (id: Option<string>)
    ensures id == LookupFrom(lines, ip, false)
  {
    hide IsRing, Field1, Field2;
    var found := false;
    assert lines[0..] == lines;
    for i := 0 to |lines|
      invariant LookupFrom(lines, ip, false) == LookupFrom(lines[i..], ip, found)
    {
      assert lines[i..][1..] == lines[i + 1..];
      if IsRing(lines[i], ip) { found := true; }
      if found && Field1(lines[i]) == "nodeid:" { return Some(Field2(lines[i])); }
    }
    return None;
  }

  /** The lines printed for a new node. */
  function NewLines(ip: string, id: nat): seq<string> {
    ["", "    node {", "        ring0_addr: " + ip, "        name: " + ip, "        nodeid: " + Decimal(id), "    }"]
  }

  /** What the insert program prints before a line. */
  function Before(line: string, ip: string, id: nat, inserted: bool, found: bool): seq<string> {
    if ListClose(line) && !inserted && found then NewLines(ip, id) else []
  }

  /** The insert program from some line on, with its `inserted` and `found_nodelist` flags. */
  function InsertFrom(lines: seq<string>, ip: string, id: nat, inserted: bool, found: bool): seq<string> {
    if lines == [] then [] else
    var here := ListClose(lines[0]) && !inserted && found;
    Before(lines[0], ip, id, inserted, found) + [lines[0]]
    + InsertFrom(lines[1..], ip, id, inserted || here, found || ListOpen(lines[0]))
  }

  lemma InsertStep(lines: seq<string>, i: nat, ip: string, id: nat, inserted: bool, found: bool)
    requires i < |lines|
    ensures var line := lines[i]; var here := ListClose(line) && !inserted && found;
      InsertFrom(lines[i..], ip, id, inserted, found) ==
        Before(line, ip, id, inserted, found) + [line] + InsertFrom(lines[i + 1..], ip, id, inserted || here, found || ListOpen(line))
  {
    hide Before, ListClose, ListOpen;
    assert lines[i..][1..] == lines[i + 1..];
  }

  lemma Regroup<T>(a: seq<T>, b: seq<T>, c: seq<T>, d: seq<T>)
    ensures a + (b + c + d) == (if b == [] then a else a + b) + c + d
  {
  }

  method Insert(lines: seq<string>, ip: string, id: nat) returns (out: seq<string>)
    ensures out == InsertFrom(lines, ip, id, false, false)
  {
    hide NewLines, ListClose, ListOpen, InsertFrom;
    var inserted, found := false, false;
    out := [];
    assert lines[0..] == lines && lines[|lines|..] == [];
    InsertNothing(ip, id, inserted, found);
    for i := 0 to |lines|
      invariant InsertFrom(lines, ip, id, false, false) == out + InsertFrom(lines[i..], ip, id, inserted, found)
    {
      var line := lines[i];
      InsertStep(lines, i, ip, id, inserted, found);
      ghost var was, here := out, Before(line, ip, id, inserted, found);
      if ListClose(line) && !inserted && found {
        out := out + NewLines(ip, id);
        inserted := true;
      }
      if ListOpen(line) { found := true; }
      out := out + [line];
      Regroup(was, here, [line], InsertFrom(lines[i + 1..], ip, id, inserted, found));
    }
    InsertNothing(ip, id, inserted, found);
  }

  lemma InsertNothing(ip: string, id: nat, inserted: bool, found: bool)
    ensures InsertFrom([], ip, id, inserted, found) == []
  {
  }

  /** The prune program from some line on, with its buffer and its `inblk` and `dead` flags. */
  function PruneFrom(lines: seq<string>, ip: string, inBlock: bool, buf: seq<string>, dead: bool): seq<string> {
    if lines == [] then []
    else if NodeOpen(lines[0]) then PruneFrom(lines[1..], ip, true, [lines[0]], false)
    else if inBlock then
      var buf' := buf + [lines[0]];
      var dead' := dead || IsRing(lines[0], ip);
      if BlockClose(lines[0]) then (if dead' then [] else buf') + PruneFrom(lines[1..], ip, false, [], dead')
      else PruneFrom(lines[1..], ip, true, buf', dead')
    else [lines[0]] + PruneFrom(lines[1..], ip, false, buf, dead)
  }

  lemma PruneStep(lines: seq<string>, i: nat, ip: string, inBlock: bool, buf: seq<string>, dead: bool)
    requires i < |lines|
    ensures var line := lines[i]; var rest := lines[i + 1..];
      PruneFrom(lines[i..], ip, inBlock, buf, dead) ==
        if NodeOpen(line) then PruneFrom(rest, ip, true, [line], false)
        else if !inBlock then [line] + PruneFrom(rest, ip, false, buf, dead)
        else if BlockClose(line) then
          (if dead || IsRing(line, ip) then [] else buf + [line]) + PruneFrom(rest, ip, false, [], dead || IsRing(line, ip))
        else PruneFrom(rest, ip, true, buf + [line], dead || IsRing(line, ip))
  {
    hide IsRing, NodeOpen, BlockClose;
    assert lines[i..][1..] == lines[i + 1..];
  }

  lemma PruneNothing(ip: string, inBlock: bool, buf: seq<string>, dead: bool)
    ensures PruneFrom([], ip, inBlock, buf, dead) == []
  {
  }

  lemma Appended<T>(a: seq<T>, b: seq<T>, c: seq<T>)
    ensures a + (b + c) == a + b + c && a + [] == a
  {
  }

  method Prune(lines: seq<string>, ip: string) returns (out: seq<string>)
    ensures out == PruneFrom(lines, ip, false, [], false)
  {
    hide IsRing, NodeOpen, BlockClose, PruneFrom;
    var inBlock, dead := false, false;
    var buf := [];
    out := [];
    assert lines[0..] == lines && lines[|lines|..] == [];
    for i := 0 to |lines|
      invariant PruneFrom(lines, ip, false, [], false) == out + PruneFrom(lines[i..], ip, inBlock, buf, dead)
    {
      PruneStep(lines, i, ip, inBlock, buf, dead);
      if NodeOpen(lines[i]) {
        buf, inBlock, dead := [lines[i]], true, false;
      } else if inBlock {
        buf := buf + [lines[i]];
        if IsRing(lines[i], ip) { dead := true; }
        if BlockClose(lines[i]) {
          Appended(out, if dead then [] else buf, PruneFrom(lines[i + 1..], ip, false, [], dead));
          if !dead { out := out + buf; }
          inBlock, buf := false, [];
        }
      } else {
        Appended(out, [lines[i]], PruneFrom(lines[i + 1..], ip, false, buf, dead));
        out := out + [lines[i]];
      }
    }
    PruneNothing(ip, inBlock, buf, dead);
  }

  /** What a grep for a name, piped into awk's $2, makes of one line. */
  function Matched(line: string, name: string): seq<string> {
    if Find(line, name, 0) != -1 then [Field2(line)] else []
  }

  /** `grep 'ring0_addr:' | awk '{print $2}'` */
  function RingAddresses(lines: seq<string>): seq<string> {
    if lines == [] then [] else Matched(lines[0], "ring0_addr:") + RingAddresses(lines[1..])
  }

  /** The ids that `grep 'nodeid:'` picks out, as text. */
  function IdTexts(lines: seq<string>): seq<string> {
    if lines == [] then [] else Matched(lines[0], "nodeid:") + IdTexts(lines[1..])
  }

  // ---- well-formed configuration text -------------------------------------

  /** A line that none of the programs reacts to as part of a node entry. */
  predicate Neutral(line: string) {
    Find(line, "ring0_addr:", 0) == -1 && Find(line, "nodeid:", 0) == -1 && !NodeOpen(line)
  }

  /** An item of the node list: a line of its own, or a node block, with its two settings in either order. */
  datatype Item =
    | Plain(line: string)
    | Entry(open: string, a: seq<string>, ring: string, b: seq<string>, idLine: string, c: seq<string>, close: string, node: Node, idFirst: bool)

  predicate Interior(ls: seq<string>) {
    forall i :: 0 <= i < |ls| ==> Neutral(ls[i]) && !BlockClose(ls[i])
  }

  /** A setting line of a block: the name, then the value. */
  predicate IsSetting(line: string, name: string, value: string) {
    Field1(line) == name && Field2(line) == value && !NodeOpen(line) && !BlockClose(line)
  }

  predicate GoodItem(it: Item) {
    match it
    case Plain(line) => Neutral(line) && !ListClose(line)
    case Entry(open, a, ring, b, idLine, c, close, node, _) =>
      && NodeOpen(open) && !ListClose(open)
      && Find(open, "ring0_addr:", 0) == -1 && Find(open, "nodeid:", 0) == -1
      && Interior(a) && Interior(b) && Interior(c)
      && IsSetting(ring, "ring0_addr:", node.ip) && Find(ring, "nodeid:", 0) == -1
      && IsSetting(idLine, "nodeid:", Decimal(node.id)) && Find(idLine, "ring0_addr:", 0) == -1
      && Neutral(close) && BlockClose(close) && !ListClose(close)
  }

  datatype Conf = Conf(head: seq<string>, opening: string, items: seq<Item>, closing: string, tail: seq<string>)

  predicate AllNeutral(ls: seq<string>) { forall i :: 0 <= i < |ls| ==> Neutral(ls[i]) }

  /** The sections before and after the node list hold no node entries; the list ends at the first brace in column 0. */
  predicate WellFormed(c: Conf) {
    && AllNeutral(c.head) && (forall i :: 0 <= i < |c.head| ==> !ListOpen(c.head[i]))
    && Neutral(c.opening) && ListOpen(c.opening) && !ListClose(c.opening)
    && (forall i :: 0 <= i < |c.items| ==> GoodItem(c.items[i]))
    && Neutral(c.closing) && ListClose(c.closing)
    && AllNeutral(c.tail)
  }

  function Upper(it: Item): string
    requires it.Entry?
  {
    if it.idFirst then it.idLine else it.ring
  }

  function Lower(it: Item): string
    requires it.Entry?
  {
    if it.idFirst then it.ring else it.idLine
  }

  function ItemLines(it: Item): seq<string> {
    match it
    case Plain(line) => [line]
    case Entry(open, a, _, b, _, c, close, _, _) => [open] + a + [Upper(it)] + b + [Lower(it)] + c + [close]
  }

  function ItemsLines(items: seq<Item>): seq<string> {
    if items == [] then [] else ItemLines(items[0]) + ItemsLines(items[1..])
  }

  function Render(c: Conf): seq<string> {
    c.head + ([c.opening] + (ItemsLines(c.items) + ([c.closing] + c.tail)))
  }

  function ItemNodes(items: seq<Item>): seq<Node> {
    if items == [] then []
    else (if items[0].Entry? then [items[0].node] else []) + ItemNodes(items[1..])
  }

  function Nodes(c: Conf): seq<Node> { ItemNodes(c.items) }

  // ---- the list operations ------------------------------------------------

  function IdOf(nodes: seq<Node>, ip: string): Option<nat> {
    if nodes == [] then None else if nodes[0].ip == ip then Some(nodes[0].id) else IdOf(nodes[1..], ip)
  }

  function Without(nodes: seq<Node>, ip: string): seq<Node> {
    if nodes == [] then [] else (if nodes[0].ip == ip then [] else [nodes[0]]) + Without(nodes[1..], ip)
  }

  function Addresses(nodes: seq<Node>): seq<string> {
    seq(|nodes|, i requires 0 <= i < |nodes| => nodes[i].ip)
  }

  function NewEntry(ip: string, id: nat): Item {
    Entry("    node {", [], "        ring0_addr: " + ip, ["        name: " + ip], "        nodeid: " + Decimal(id), [], "    }", Node(ip, id), false)
  }

  /** The id that the lookup gives: the next one at or after the address line, in its own block or a later one. */
  function NextIdOf(items: seq<Item>, ip: string): Option<nat> {
    if items == [] then None
    else if items[0].Plain? || items[0].node.ip != ip then NextIdOf(items[1..], ip)
    else if items[0].idFirst then FirstId(ItemNodes(items[1..]))
    else Some(items[0].node.id)
  }

  function FirstId(nodes: seq<Node>): Option<nat> { if nodes == [] then None else Some(nodes[0].id) }

  /** Every block names its address before its id, as pcs and the insert program write them. */
  predicate RingsFirst(c: Conf) { forall i :: 0 <= i < |c.items| ==> c.items[i].Entry? ==> !c.items[i].idFirst }

  /** The first block of ip, if there is one, names its id first, and the block after it has another id or there is none. */
  predicate RunsOn(items: seq<Item>, ip: string) {
    && items != []
    && if items[0].Entry? && items[0].node.ip == ip
       then items[0].idFirst && FirstId(ItemNodes(items[1..])) != Some(items[0].node.id)
       else RunsOn(items[1..], ip)
  }

  /** The configuration with a blank line and one more entry at the end of its node list. */
  function Inserted(c: Conf, ip: string, id: nat): Conf {
    c.(items := c.items + [Plain(""), NewEntry(ip, id)])
  }

  function ItemUnless(it: Item, ip: string): seq<Item> {
    if it.Entry? && it.node.ip == ip then [] else [it]
  }

  function ItemsWithout(items: seq<Item>, ip: string): seq<Item> {
    if items == [] then [] else ItemUnless(items[0], ip) + ItemsWithout(items[1..], ip)
  }

  /** The configuration without the entries of ip, everything else in place. */
  function Pruned(c: Conf, ip: string): Conf { c.(items := ItemsWithout(c.items, ip)) }
}
