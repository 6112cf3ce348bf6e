/**
 The compile-time scan that recovers an interface's method list from its declaration indices, and
 the duplicate checks over the lists it finds.
 */
module Interfaces {
  import opened Wrappers
  import opened Words

  // A declared name: `void`, or a symbol type with the C string its `symbol_name` returns.
  datatype Entry = Void | Symbol(id: nat, name: seq<byte>)

  // The names a descriptor declares, by index.
  type Descriptor = nat -> Option<Entry>

  // -------- The balanced scan --------

  function MethodAtIndex(d: Descriptor, index: nat): seq<Entry> {
    match d(index)
    case None => []
    case Some(entry) => [entry]
  }

  function NamesInRange(d: Descriptor, begin: nat, end: nat): seq<Entry>
    decreases end - begin
  {
    if begin >= end then []
    else if begin + 1 >= end then MethodAtIndex(d, begin)
    else
      var middle := begin + (end - begin) / 2;
      NamesInRange(d, begin, middle) + NamesInRange(d, middle, end)
  }

  // Template instantiations nested in one another.
  function Depth(begin: nat, end: nat): nat
    decreases end - begin
  {
    if begin + 1 >= end then 1
    else
      var middle := begin + (end - begin) / 2;
      var (left, right) := (Depth(begin, middle), Depth(middle, end));
      1 + if left < right then right else left
  }

  // The left-to-right scan the balanced one stands for.
  function LinearNames(d: Descriptor, begin: nat, end: nat): seq<Entry>
    decreases end - begin
  {
    if begin >= end then [] else MethodAtIndex(d, begin) + LinearNames(d, begin + 1, end)
  }

  lemma {:induction false} LinearSplits(d: Descriptor, begin: nat, middle: nat, end: nat)
    requires begin <= middle <= end
    ensures LinearNames(d, begin, end) == LinearNames(d, begin, middle) + LinearNames(d, middle, end)
    decreases middle - begin
  {
    if begin < middle {
      LinearSplits(d, begin + 1, middle, end);
    }
  }

  lemma {:induction false} BalancedIsLinear(d: Descriptor, begin: nat, end: nat)
    ensures NamesInRange(d, begin, end) == LinearNames(d, begin, end)
    decreases end - begin
  {
    if begin + 1 < end {
      var middle := begin + (end - begin) / 2;
      BalancedIsLinear(d, begin, middle);
      BalancedIsLinear(d, middle, end);
      LinearSplits(d, begin, middle, end);
    } else if begin < end {
      assert LinearNames(d, begin + 1, end) == [];
    }
  }

  lemma {:induction false} Pow2Grows(j: nat, k: nat)
    requires j <= k
    ensures Pow2(j) <= Pow2(k)
    decreases k
  {
    if j < k {
      Pow2Grows(j, k - 1);
    }
  }

  // The depth over n indices is exactly ceil(log2 n) + 1: the least k with n <= 2^(k-1).
  lemma {:induction false} DepthIsLogarithmic(begin: nat, end: nat)
    requires begin < end
    ensures var (n, depth) := (end - begin, Depth(begin, end));
            depth >= 1 && n <= Pow2(depth - 1) && (depth >= 2 ==> Pow2(depth - 2) < n)
    decreases end - begin
  {
    if begin + 1 < end {
      var middle := begin + (end - begin) / 2;
      DepthIsLogarithmic(begin, middle);
      DepthIsLogarithmic(middle, end);
      var (left, right) := (Depth(begin, middle), Depth(middle, end));
      assert middle - begin <= end - middle && end - begin <= 2 * (end - middle) <= end - begin + 1;
      if right < left {
        Pow2Grows(right - 1, left - 2);
        assert false;
      }
      assert Depth(begin, end) == right + 1 && Pow2(right) == 2 * Pow2(right - 1);
    }
  }

  // -------- Names as C strings --------

  ghost predicate Terminated(text: seq<byte>) {
    0 in text
  }

  // `equal_name`, which walks both strings while they agree.
  function EqualName(left: seq<byte>, right: seq<byte>): bool
    requires Terminated(left) && Terminated(right)
  {
    left[0] == right[0] && (left[0] == 0 || EqualName(left[1..], right[1..]))
  }

  lemma {:induction false} EqualNameIsEquality(left: seq<byte>, right: seq<byte>)
    requires Terminated(left) && Terminated(right)
    ensures EqualName(left, right) <==> CString(left) == CString(right)
    decreases |left|
  {
    if left[0] != 0 && right[0] != 0 {
      EqualNameIsEquality(left[1..], right[1..]);
      assert CString(left)[1..] == CString(left[1..]);
      assert CString(right)[1..] == CString(right[1..]);
    }
  }

  // -------- Duplicate checks --------

  ghost predicate Named(list: seq<Entry>) {
    forall i | 0 <= i < |list| && list[i].Symbol? :: Terminated(list[i].name)
  }

  function ContainsName(name: seq<byte>, list: seq<Entry>): bool
    requires Terminated(name) && Named(list)
  {
    if list == [] then false
    else if list[0].Void? then ContainsName(name, list[1..])
    else EqualName(name, list[0].name) || ContainsName(name, list[1..])
  }

  function UniqueNames(list: seq<Entry>): bool
    requires Named(list)
  {
    if list == [] then true
    else if list[0].Void? then UniqueNames(list[1..])
    else !ContainsName(list[0].name, list[1..]) && UniqueNames(list[1..])
  }

  function ContainsType(entry: Entry, list: seq<Entry>): bool {
    if list == [] then false else entry == list[0] || ContainsType(entry, list[1..])
  }

  function UniqueTypes(list: seq<Entry>): bool {
    if list == [] then true
    else if list[0].Void? then UniqueTypes(list[1..])
    else !ContainsType(list[0], list[1..]) && UniqueTypes(list[1..])
  }

  ghost predicate SameName(a: Entry, b: Entry) {
    a.Symbol? && b.Symbol? && CString(a.name) == CString(b.name)
  }

  ghost predicate NoDuplicateNames(list: seq<Entry>) {
    forall i, j | 0 <= i < j < |list| :: !SameName(list[i], list[j])
  }

  lemma {:induction false} ContainsNameMeaning(entry: Entry, list: seq<Entry>)
    requires entry.Symbol? && Terminated(entry.name) && Named(list)
    ensures ContainsName(entry.name, list) <==> exists j | 0 <= j < |list| :: SameName(entry, list[j])
  {
    if list != [] {
      var tail := list[1..];
      ContainsNameMeaning(entry, tail);
      if list[0].Symbol? {
        EqualNameIsEquality(entry.name, list[0].name);
      }
      if j :| 0 <= j < |tail| && SameName(entry, tail[j]) {
        assert SameName(entry, list[j + 1]);
      }
      if j :| 0 <= j < |list| && SameName(entry, list[j]) {
        assert j == 0 || list[j] == tail[j - 1];
      }
    }
  }

  lemma {:induction false} UniqueNamesMeaning(list: seq<Entry>)
    requires Named(list)
    ensures UniqueNames(list) <==> NoDuplicateNames(list)
  {
    if list != [] {
      var tail := list[1..];
      UniqueNamesMeaning(tail);
      if list[0].Symbol? {
        ContainsNameMeaning(list[0], tail);
      }
      if NoDuplicateNames(list) {
        forall i, j | 0 <= i < j < |tail| ensures !SameName(tail[i], tail[j]) {
          assert !SameName(list[i + 1], list[j + 1]);
        }
        forall j | 0 <= j < |tail| ensures !SameName(list[0], tail[j]) {
          assert !SameName(list[0], list[j + 1]);
        }
      }
      if UniqueNames(list) {
        forall i, j | 0 <= i < j < |list| ensures !SameName(list[i], list[j]) {
          assert list[j] == tail[j - 1];
          if i > 0 {
            assert !SameName(tail[i - 1], tail[j - 1]);
          }
        }
      }
    }
  }

  lemma {:induction false} UniqueTypesMeaning(list: seq<Entry>)
    ensures UniqueTypes(list) <==> forall i, j | 0 <= i < j < |list| :: list[i].Symbol? ==> list[i] != list[j]
  {
    if list != [] {
      var tail := list[1..];
      UniqueTypesMeaning(tail);
      ContainsTypeMeaning(list[0], tail);
      assert forall j | 0 < j < |list| :: list[j] == tail[j - 1];
      assert forall j | 0 <= j < |tail| :: tail[j] == list[j + 1];
    }
  }

  lemma {:induction false} ContainsTypeMeaning(entry: Entry, list: seq<Entry>)
    ensures ContainsType(entry, list) <==> entry in list
  {
    if list != [] {
      ContainsTypeMeaning(entry, list[1..]);
    }
  }

  // -------- A class with its interfaces --------

  // A declaration block: its descriptor and the indices its begin and end macros expanded to.
  datatype Block = Block(names: Descriptor, beginIndex: nat, endIndex: nat)

  // `method_names_in_range_t` skips the begin macro's own index.
  function MethodNames(block: Block): seq<Entry> {
    NamesInRange(block.names, block.beginIndex + 1, block.endIndex)
  }

  function Collected(blocks: seq<Block>): seq<Entry> {
    if blocks == [] then [] else MethodNames(blocks[0]) + Collected(blocks[1..])
  }

  ghost predicate WellNamed(block: Block) {
    forall i: nat | block.names(i).Some? && block.names(i).value.Symbol? :: Terminated(block.names(i).value.name)
  }

  lemma {:induction false} LinearNamed(block: Block, begin: nat, end: nat)
    requires WellNamed(block)
    ensures Named(LinearNames(block.names, begin, end))
    decreases end - begin
  {
    if begin < end {
      LinearNamed(block, begin + 1, end);
    }
  }

  lemma {:induction false} CollectedNamed(blocks: seq<Block>)
    requires forall b <- blocks :: WellNamed(b)
    ensures Named(Collected(blocks))
  {
    if blocks != [] {
      CollectedNamed(blocks[1..]);
      var b := blocks[0];
      assert b in blocks;
      LinearNamed(b, b.beginIndex + 1, b.endIndex);
      BalancedIsLinear(b.names, b.beginIndex + 1, b.endIndex);
    }
  }

  // A declaration: its block, an index strictly inside the block, and the name declared there.
  datatype Place = Place(block: nat, index: nat, entry: Entry)

  ghost predicate Declares(blocks: seq<Block>, p: Place) {
    && p.block < |blocks|
    && blocks[p.block].beginIndex < p.index < blocks[p.block].endIndex
    && blocks[p.block].names(p.index) == Some(p.entry)
  }

  // The scan with every name's place kept beside it; `number` is the first block's number.
  function TaggedFrom(block: Block, number: nat, begin: nat): seq<Place>
    decreases block.endIndex - begin
  {
    if begin >= block.endIndex then []
    else (match block.names(begin) case None => [] case Some(e) => [Place(number, begin, e)])
         + TaggedFrom(block, number, begin + 1)
  }

  function Tagged(blocks: seq<Block>, number: nat): seq<Place> {
    if blocks == [] then []
    else TaggedFrom(blocks[0], number, blocks[0].beginIndex + 1) + Tagged(blocks[1..], number + 1)
  }

  function Entries(places: seq<Place>): (entries: seq<Entry>)
    ensures |entries| == |places| && forall k | 0 <= k < |places| :: entries[k] == places[k].entry
  {
    seq(|places|, k requires 0 <= k < |places| => places[k].entry)
  }

  ghost predicate Increasing(places: seq<Place>) {
    forall j, k | 0 <= j < k < |places| ::
      places[j].block < places[k].block || (places[j].block == places[k].block && places[j].index < places[k].index)
  }

  lemma {:induction false} TaggedFromNames(block: Block, number: nat, begin: nat)
    ensures Entries(TaggedFrom(block, number, begin)) == LinearNames(block.names, begin, block.endIndex)
    decreases block.endIndex - begin
  {
    if begin < block.endIndex {
      TaggedFromNames(block, number, begin + 1);
    }
  }

  lemma {:induction false} TaggedFromPlaces(block: Block, number: nat, begin: nat)
    ensures forall p: Place :: p in TaggedFrom(block, number, begin) <==>
              p.block == number && begin <= p.index < block.endIndex && block.names(p.index) == Some(p.entry)
    decreases block.endIndex - begin
  {
    if begin < block.endIndex {
      TaggedFromPlaces(block, number, begin + 1);
    }
  }

  lemma {:induction false} TaggedFromIncreasing(block: Block, number: nat, begin: nat)
    ensures Increasing(TaggedFrom(block, number, begin))
    decreases block.endIndex - begin
  {
    if begin < block.endIndex {
      TaggedFromIncreasing(block, number, begin + 1);
      var later := TaggedFrom(block, number, begin + 1);
      forall k | 0 <= k < |later| ensures later[k].block == number && begin < later[k].index {
        TaggedFromPlaces(block, number, begin + 1);
        assert later[k] in later;
      }
    }
  }

  lemma {:induction false} TaggedNames(blocks: seq<Block>, number: nat)
    ensures Entries(Tagged(blocks, number)) == Collected(blocks)
  {
    if blocks != [] {
      var block := blocks[0];
      TaggedNames(blocks[1..], number + 1);
      TaggedFromNames(block, number, block.beginIndex + 1);
      BalancedIsLinear(block.names, block.beginIndex + 1, block.endIndex);
    }
  }

  lemma {:induction false} TaggedPlaces(blocks: seq<Block>, number: nat)
    ensures forall p: Place :: p in Tagged(blocks, number) <==>
              p.block >= number && Declares(blocks, p.(block := p.block - number))
  {
    if blocks != [] {
      TaggedPlaces(blocks[1..], number + 1);
      TaggedFromPlaces(blocks[0], number, blocks[0].beginIndex + 1);
    }
  }

  lemma {:induction false} TaggedIncreasing(blocks: seq<Block>, number: nat)
    ensures Increasing(Tagged(blocks, number))
  {
    if blocks != [] {
      TaggedIncreasing(blocks[1..], number + 1);
      TaggedPlaces(blocks[1..], number + 1);
      var here := TaggedFrom(blocks[0], number, blocks[0].beginIndex + 1);
      var later := Tagged(blocks[1..], number + 1);
      TaggedFromIncreasing(blocks[0], number, blocks[0].beginIndex + 1);
      TaggedFromPlaces(blocks[0], number, blocks[0].beginIndex + 1);
      assert forall k | 0 <= k < |here| :: here[k] in here;
      assert forall k | 0 <= k < |later| :: later[k] in later;
    }
  }

  // A class is accepted by the name check exactly when no two of its declarations, in whichever
  // interface or in the class itself, carry the same name.
  lemma AcceptedIffDeclarationsDistinct(blocks: seq<Block>)
    requires forall b <- blocks :: WellNamed(b)
    ensures Named(Collected(blocks))
    ensures UniqueNames(Collected(blocks)) <==>
            forall p: Place, q: Place | Declares(blocks, p) && Declares(blocks, q) && SameName(p.entry, q.entry) ::
              p == q
  {
    hide CString, UniqueNames, Tagged, Collected, Declares;
    CollectedNamed(blocks);
    UniqueNamesMeaning(Collected(blocks));
    TaggedNames(blocks, 0);
    TaggedPlaces(blocks, 0);
    TaggedIncreasing(blocks, 0);
    var (places, names) := (Tagged(blocks, 0), Collected(blocks));
    if NoDuplicateNames(names) {
      forall p: Place, q: Place | Declares(blocks, p) && Declares(blocks, q) && SameName(p.entry, q.entry)
        ensures p == q
      {
        assert p.(block := p.block - 0) == p && q.(block := q.block - 0) == q;
        assert p in places && q in places;
        var j :| 0 <= j < |places| && places[j] == p;
        var k :| 0 <= k < |places| && places[k] == q;
        assert SameName(names[j], names[k]) && SameName(names[k], names[j]);
      }
    } else {
      var j, k :| 0 <= j < k < |names| && SameName(names[j], names[k]);
      assert places[j] in places && places[k] in places;
      assert places[j].(block := places[j].block - 0) == places[j];
      assert places[k].(block := places[k].block - 0) == places[k];
    }
  }
}
