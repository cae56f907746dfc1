/**
 * The "+" and "−" buttons of the fork and join nodes. The fork's buttons
 * grow and shrink its `output` group, the join's its `input` group; a
 * group holds between two and ten ports named `<group>1` … `<group>k`, and
 * every change resizes the node to fit the new count.
 */
module PortTools {
  import opened Text
  import opened Seqs
  import opened Graph

  const MinPorts: nat := 2
  const MaxPorts: nat := 10
  const NodeWidth: int := 120
  const BaseHeight: int := 120
  const PortHeight: int := 20

  /** A fork or join node as its buttons see it: the port items, in order, and the node size. */
  datatype Box = Box(ports: seq<Port>, width: int, height: int)

  /** `ports.filter(port => port.group === group)`. */
  function Group(ports: seq<Port>, group: string): (g: seq<Port>)
    ensures |g| <= |ports|
  {
    Filter(ports, (p: Port) => p.group == group)
  }

  /** `` `${group}${n}` ``. */
  function PortName(group: string, n: nat): string {
    group + NatToString(n)
  }

  /** `Math.max(120, 120 + count * 20)`. */
  function HeightFor(count: int): int {
    var h := BaseHeight + count * PortHeight;
    if h < BaseHeight then BaseHeight else h
  }

  /** `removePort(id)`: drops the first port item carrying `id`, if any. */
  function RemoveById(ports: seq<Port>, id: string): (r: seq<Port>)
    ensures |r| <= |ports|
  {
    if |ports| == 0 then []
    else if ports[0].id == id then ports[1..]
    else [ports[0]] + RemoveById(ports[1..], id)
  }

  /** The "+" button of `group`: below ten ports, append `<group>(k+1)` and grow the node. */
  function Plus(b: Box, group: string): (r: Box)
    ensures |r.ports| <= |b.ports| + 1
  {
    var k := |Group(b.ports, group)|;
    if k < MaxPorts then Box(b.ports + [Port(PortName(group, k + 1), group)], NodeWidth, HeightFor(k + 1))
    else b
  }

  /** The "−" button of `group`: above two ports, remove the group's last port and shrink the node. */
  function Minus(b: Box, group: string): (r: Box)
    ensures |r.ports| <= |b.ports|
  {
    var g := Group(b.ports, group);
    if |g| > MinPorts then Box(RemoveById(b.ports, g[|g| - 1].id), NodeWidth, HeightFor(|g| - 1))
    else b
  }

  // The invariant the buttons keep.

  /** The group's ports are named `<group>1`, `<group>2`, … in order. */
  predicate Numbered(g: seq<Port>, group: string) {
    forall i :: 0 <= i < |g| ==> g[i].id == PortName(group, i + 1)
  }

  predicate HasPrefix(id: string, group: string) {
    |group| < |id| && id[..|group|] == group
  }

  /** No port of another group carries a name of the `<group>n` form. */
  predicate NoForeignNames(ports: seq<Port>, group: string) {
    forall i :: 0 <= i < |ports| && ports[i].group != group ==> !HasPrefix(ports[i].id, group)
  }

  predicate PortInv(b: Box, group: string) {
    var g := Group(b.ports, group);
    MinPorts <= |g| <= MaxPorts && Numbered(g, group) && NoForeignNames(b.ports, group)
  }

  /**
   * The node is sized for its group's count: the fixed width and the height
   * `Math.max` gives. A freshly dropped fork or join is not: it is 120 high
   * while two ports call for 160, until its first effective click.
   */
  predicate Sized(b: Box, group: string) {
    b.width == NodeWidth && b.height == HeightFor(|Group(b.ports, group)|)
  }

  /** The fork's initial port items: `input`, `output1`, `output2`, on a 120×120 node. */
  const ForkBox: Box :=
    Box([Port("input", "input"), Port("output1", "output"), Port("output2", "output")], 120, 120)

  /** The join's initial port items: `input1`, `input2`, `output`, on a 120×120 node. */
  const JoinBox: Box :=
    Box([Port("input1", "input"), Port("input2", "input"), Port("output", "output")], 120, 120)

  lemma PortNameHasPrefix(group: string, n: nat)
    ensures HasPrefix(PortName(group, n), group)
  {
    assert (group + NatToString(n))[..|group|] == group;
  }

  lemma PortNameInjective(group: string, m: nat, n: nat)
    requires m != n
    ensures PortName(group, m) != PortName(group, n)
  {
    assert (group + NatToString(m))[|group|..] == NatToString(m);
    assert (group + NatToString(n))[|group|..] == NatToString(n);
    if NatToString(m) == NatToString(n) {
      NatToStringInjective(m, n);
    }
  }

  lemma GroupSnoc(ports: seq<Port>, p: Port, group: string)
    ensures Group(ports + [p], group) == if p.group == group then Group(ports, group) + [p] else Group(ports, group)
  {
    FilterConcat(ports, [p], (q: Port) => q.group == group);
    assert Filter([p], (q: Port) => q.group == group) == if p.group == group then [p] else [];
  }

  /** Removing the group's last port by id, when no earlier group port carries the id, drops exactly it from the group. */
  lemma {:induction false} RemoveLast(ports: seq<Port>, id: string, group: string)
    requires |Group(ports, group)| > 0
    requires Group(ports, group)[|Group(ports, group)| - 1].id == id
    requires forall i :: 0 <= i < |Group(ports, group)| - 1 ==> Group(ports, group)[i].id != id
    requires forall i :: 0 <= i < |ports| && ports[i].id == id ==> ports[i].group == group
    ensures Group(RemoveById(ports, id), group) == Group(ports, group)[..|Group(ports, group)| - 1]
    decreases |ports|
  {
    var g := Group(ports, group);
    var tail := ports[1..];
    var gt := Group(tail, group);
    if ports[0].id == id {
      assert g[0] == ports[0];
      assert |g| == 1;
    } else {
      var r := RemoveById(tail, id);
      assert RemoveById(ports, id) == [ports[0]] + r;
      assert ([ports[0]] + r)[1..] == r;
      forall i | 0 <= i < |tail| && tail[i].id == id ensures tail[i].group == group {
        assert tail[i] == ports[i + 1];
      }
      if ports[0].group == group {
        assert g == [ports[0]] + gt;
        forall i | 0 <= i < |gt| - 1 ensures gt[i].id != id {
          assert gt[i] == g[i + 1];
        }
        RemoveLast(tail, id, group);
        assert g[..|g| - 1] == [ports[0]] + gt[..|gt| - 1];
      } else {
        assert g == gt;
        RemoveLast(tail, id, group);
      }
    }
  }

  /** Removing an id that no port of group `h` carries leaves group `h` as it was. */
  lemma {:induction false} RemoveOtherGroup(ports: seq<Port>, id: string, h: string)
    requires forall i :: 0 <= i < |ports| && ports[i].id == id ==> ports[i].group != h
    ensures Group(RemoveById(ports, id), h) == Group(ports, h)
    decreases |ports|
  {
    if |ports| > 0 {
      var tail := ports[1..];
      assert forall i :: 1 <= i < |ports| ==> ports[i] == tail[i - 1];
      if ports[0].id != id {
        var r := RemoveById(tail, id);
        assert ([ports[0]] + r)[1..] == r;
        RemoveOtherGroup(tail, id, h);
      }
    }
  }

  /** Under the invariant, the group's last port is the only item carrying its id. */
  lemma LastIdUnique(b: Box, group: string)
    requires PortInv(b, group)
    ensures var g := Group(b.ports, group);
      (forall i :: 0 <= i < |g| - 1 ==> g[i].id != g[|g| - 1].id)
      && forall i :: 0 <= i < |b.ports| && b.ports[i].id == g[|g| - 1].id ==> b.ports[i].group == group
  {
    var g := Group(b.ports, group);
    var k := |g|;
    forall i | 0 <= i < k - 1 ensures g[i].id != g[k - 1].id {
      PortNameInjective(group, i + 1, k);
    }
    PortNameHasPrefix(group, k);
  }

  /**
   * "+" below ten ports appends `<group>(k+1)` to the group, sizes the node
   * for the new count, and leaves the other groups alone; at ten it changes nothing.
   */
  lemma PlusSpec(b: Box, group: string)
    ensures var k := |Group(b.ports, group)|;
      if k < MaxPorts then
        Group(Plus(b, group).ports, group) == Group(b.ports, group) + [Port(PortName(group, k + 1), group)]
        && Plus(b, group).width == NodeWidth
        && Plus(b, group).height == BaseHeight + PortHeight * (k + 1)
      else Plus(b, group) == b
    ensures forall h :: h != group ==> Group(Plus(b, group).ports, h) == Group(b.ports, h)
  {
    var k := |Group(b.ports, group)|;
    if k < MaxPorts {
      var p := Port(PortName(group, k + 1), group);
      GroupSnoc(b.ports, p, group);
      forall h | h != group ensures Group(Plus(b, group).ports, h) == Group(b.ports, h) {
        GroupSnoc(b.ports, p, h);
      }
    }
  }

  /**
   * "−" above two ports removes the group's last port, sizes the node for
   * the new count, and leaves the other groups alone; at two it changes nothing.
   */
  lemma MinusSpec(b: Box, group: string)
    requires PortInv(b, group)
    ensures var g := Group(b.ports, group);
      if |g| > MinPorts then
        Group(Minus(b, group).ports, group) == g[..|g| - 1]
        && Minus(b, group).width == NodeWidth
        && Minus(b, group).height == BaseHeight + PortHeight * (|g| - 1)
      else Minus(b, group) == b
    ensures forall h :: h != group ==> Group(Minus(b, group).ports, h) == Group(b.ports, h)
  {
    var g := Group(b.ports, group);
    if |g| > MinPorts {
      LastIdUnique(b, group);
      RemoveLast(b.ports, g[|g| - 1].id, group);
      forall h | h != group ensures Group(Minus(b, group).ports, h) == Group(b.ports, h) {
        RemoveOtherGroup(b.ports, g[|g| - 1].id, h);
      }
    }
  }

  lemma {:induction false} RemoveByIdSubset(ports: seq<Port>, id: string)
    ensures forall p :: p in RemoveById(ports, id) ==> p in ports
    decreases |ports|
  {
    if |ports| > 0 && ports[0].id != id {
      RemoveByIdSubset(ports[1..], id);
    }
  }

  /** "+" keeps the invariant; a click that changes the node sizes it, and a sized node stays sized. */
  lemma PlusKeepsInv(b: Box, group: string)
    requires PortInv(b, group)
    ensures PortInv(Plus(b, group), group)
    ensures Plus(b, group) == b || Sized(Plus(b, group), group)
    ensures Sized(b, group) ==> Sized(Plus(b, group), group)
  {
    PlusSpec(b, group);
  }

  /** "−" keeps the invariant; a click that changes the node sizes it, and a sized node stays sized. */
  lemma MinusKeepsInv(b: Box, group: string)
    requires PortInv(b, group)
    ensures PortInv(Minus(b, group), group)
    ensures Minus(b, group) == b || Sized(Minus(b, group), group)
    ensures Sized(b, group) ==> Sized(Minus(b, group), group)
  {
    MinusSpec(b, group);
    var r := Minus(b, group);
    RemoveByIdSubset(b.ports, Group(b.ports, group)[|Group(b.ports, group)| - 1].id);
    forall i | 0 <= i < |r.ports| && r.ports[i].group != group
      ensures !HasPrefix(r.ports[i].id, group)
    {
      assert r.ports[i] in r.ports;
      var j :| 0 <= j < |b.ports| && b.ports[j] == r.ports[i];
    }
  }

  /** The fork starts inside the invariant of its `output` group. */
  lemma ForkPortsValid()
    ensures PortInv(ForkBox, "output")
  {
    var fork := ForkBox.ports;
    assert fork[1..][1..][1..] == [];
    assert Group(fork, "output") == fork[1..];
    assert NatToString(1) == "1" && NatToString(2) == "2";
    assert !HasPrefix("input", "output");
  }

  /** The join starts inside the invariant of its `input` group. */
  lemma JoinPortsValid()
    ensures PortInv(JoinBox, "input")
  {
    var join := JoinBox.ports;
    assert join[1..][1..] == [join[2]];
    assert [join[2]][1..] == [];
    assert Group([join[2]], "input") == [];
    assert Group(join[1..], "input") == [join[1]];
    assert Group(join, "input") == join[..2];
    assert NatToString(1) == "1" && NatToString(2) == "2";
    assert "output"[0] != "input"[0];
    assert !HasPrefix("output", "input");
  }

  /** A sequence of clicks on one node's buttons: `true` is "+", `false` is "−". */
  function Clicks(b: Box, group: string, presses: seq<bool>): Box
    decreases |presses|
  {
    if |presses| == 0 then b
    else Clicks(if presses[0] then Plus(b, group) else Minus(b, group), group, presses[1..])
  }

  /**
   * Whatever the user clicks, a fork keeps two to ten outputs named
   * `output1` … `outputk`, and a join two to ten inputs named `input1` … `inputk`.
   */
  lemma {:induction false} ClicksKeepInv(b: Box, group: string, presses: seq<bool>)
    requires PortInv(b, group)
    ensures PortInv(Clicks(b, group, presses), group)
    decreases |presses|
  {
    if |presses| > 0 {
      if presses[0] { PlusKeepsInv(b, group); } else { MinusKeepsInv(b, group); }
      ClicksKeepInv(if presses[0] then Plus(b, group) else Minus(b, group), group, presses[1..]);
    }
  }

  /** After any clicks the node is either untouched or sized for its count; a sized node stays sized. */
  lemma {:induction false} ClicksSized(b: Box, group: string, presses: seq<bool>)
    requires PortInv(b, group)
    ensures Clicks(b, group, presses) == b || Sized(Clicks(b, group, presses), group)
    ensures Sized(b, group) ==> Sized(Clicks(b, group, presses), group)
    decreases |presses|
  {
    if |presses| > 0 {
      var next := if presses[0] then Plus(b, group) else Minus(b, group);
      if presses[0] { PlusKeepsInv(b, group); } else { MinusKeepsInv(b, group); }
      ClicksSized(next, group, presses[1..]);
    }
  }

  /** The fresh fork is 120 high, not sized for its two outputs; "−" leaves it so, "+" sizes it for three. */
  lemma FreshForkSize()
    ensures !Sized(ForkBox, "output")
    ensures Minus(ForkBox, "output") == ForkBox
    ensures Plus(ForkBox, "output").height == 180 && Sized(Plus(ForkBox, "output"), "output")
  {
    ForkPortsValid();
    assert |Group(ForkBox.ports, "output")| == 2;
    PlusKeepsInv(ForkBox, "output");
    PlusSpec(ForkBox, "output");
  }

  lemma ForkClicks(presses: seq<bool>)
    ensures var g := Group(Clicks(ForkBox, "output", presses).ports, "output");
      2 <= |g| <= 10 && forall i :: 0 <= i < |g| ==> g[i] == Port(PortName("output", i + 1), "output")
  {
    ForkPortsValid();
    ClicksKeepInv(ForkBox, "output", presses);
    var g := Group(Clicks(ForkBox, "output", presses).ports, "output");
    FilterSpec(Clicks(ForkBox, "output", presses).ports, (p: Port) => p.group == "output");
  }

  lemma JoinClicks(presses: seq<bool>)
    ensures var g := Group(Clicks(JoinBox, "input", presses).ports, "input");
      2 <= |g| <= 10 && forall i :: 0 <= i < |g| ==> g[i] == Port(PortName("input", i + 1), "input")
  {
    JoinPortsValid();
    ClicksKeepInv(JoinBox, "input", presses);
    FilterSpec(Clicks(JoinBox, "input", presses).ports, (p: Port) => p.group == "input");
  }

  /** "−" undoes "+": the port items come back exactly as they were. */
  lemma MinusUndoesPlus(b: Box, group: string)
    requires PortInv(b, group)
    requires |Group(b.ports, group)| < MaxPorts
    ensures Minus(Plus(b, group), group).ports == b.ports
  {
    var k := |Group(b.ports, group)|;
    var p := Port(PortName(group, k + 1), group);
    PlusSpec(b, group);
    var g := Group(b.ports, group);
    FilterSpec(b.ports, (q: Port) => q.group == group);
    forall i | 0 <= i < |b.ports| ensures b.ports[i].id != p.id {
      PortNameHasPrefix(group, k + 1);
      if b.ports[i].group == group {
        var j :| 0 <= j < k && g[j] == b.ports[i];
        PortNameInjective(group, j + 1, k + 1);
      }
    }
    RemoveFirstMissing(b.ports, p);
  }

  /** Removing the id of an item appended after every other carrier of it removes the appended one. */
  lemma {:induction false} RemoveFirstMissing(ports: seq<Port>, p: Port)
    requires forall i :: 0 <= i < |ports| ==> ports[i].id != p.id
    ensures RemoveById(ports + [p], p.id) == ports
    decreases |ports|
  {
    if |ports| == 0 {
      assert ports + [p] == [p];
    } else {
      assert (ports + [p])[1..] == ports[1..] + [p];
      RemoveFirstMissing(ports[1..], p);
    }
  }

  /** "+" undoes "−" on the edited group: the same ports come back in the same order. */
  lemma PlusUndoesMinus(b: Box, group: string)
    requires PortInv(b, group)
    requires |Group(b.ports, group)| > MinPorts
    ensures Group(Plus(Minus(b, group), group).ports, group) == Group(b.ports, group)
  {
    var g := Group(b.ports, group);
    MinusSpec(b, group);
    PlusSpec(Minus(b, group), group);
    FilterSpec(b.ports, (p: Port) => p.group == group);
    assert g[|g| - 1] == Port(PortName(group, |g|), group);
    assert g[..|g| - 1] + [g[|g| - 1]] == g;
  }
}
