/**
 * VertexDeclaration: an ordered list of vertex attributes and the binding
 * of that list to a shader program. Each element's `offset` field holds its
 * width in bytes; the byte offset it is bound at is the sum of the widths
 * before it, and every element is bound with the total width as stride.
 */
module VertexDeclarations {
  import opened Wrappers

  datatype VertexElement = VertexElement(name: string, size: int, offset: int)

  /** One enable-and-point call issued for an attribute. */
  datatype AttribPointer = AttribPointer(attribute: int, size: int, stride: int, offset: int)

  /** The shader program's attribute locations by name; -1 when the program has no such attribute. */
  type AttribLookup = string -> int

  /** Setup fails naming the element whose attribute the program lacks. */
  datatype SetupError = ElementNotFound(name: string)

  /** Total width of the elements, in bytes. */
  function Stride(elements: seq<VertexElement>): int
  {
    if elements == [] then 0 else elements[0].offset + Stride(elements[1..])
  }

  /** Byte offset of element i: the widths of the elements before it. */
  function OffsetOf(elements: seq<VertexElement>, i: nat): int
    requires i <= |elements|
  {
    Stride(elements[..i])
  }

  lemma {:induction false} StrideAppend(a: seq<VertexElement>, b: seq<VertexElement>)
    ensures Stride(a + b) == Stride(a) + Stride(b)
  {
    if a == [] {
      assert a + b == b;
    } else {
      assert (a + b)[1..] == a[1..] + b;
      StrideAppend(a[1..], b);
    }
  }

  /** Number of elements before the first whose attribute the program lacks (all of them when none is missing). */
  function FirstMissing(elements: seq<VertexElement>, lookup: AttribLookup): (k: nat)
    ensures k <= |elements|
    ensures forall j | 0 <= j < k :: lookup(elements[j].name) != -1
    ensures k < |elements| ==> lookup(elements[k].name) == -1
  {
    if elements == [] || lookup(elements[0].name) == -1 then 0
    else 1 + FirstMissing(elements[1..], lookup)
  }

  /** The first element is at offset 0 and with non-negative widths offsets never decrease. */
  lemma OffsetsMonotone(elements: seq<VertexElement>, i: nat, j: nat)
    requires forall k | 0 <= k < |elements| :: elements[k].offset >= 0
    requires i <= j <= |elements|
    ensures OffsetOf(elements, 0) == 0
    ensures OffsetOf(elements, i) <= OffsetOf(elements, j)
  {
    assert elements[..0] == [];
    assert elements[..j] == elements[..i] + elements[i..j];
    StrideAppend(elements[..i], elements[i..j]);
    StrideNonNegative(elements[i..j]);
  }

  lemma {:induction false} StrideNonNegative(elements: seq<VertexElement>)
    requires forall k | 0 <= k < |elements| :: elements[k].offset >= 0
    ensures Stride(elements) >= 0
  {
    if elements != [] {
      StrideNonNegative(elements[1..]);
    }
  }

  /** The last element ends exactly at the stride. */
  lemma LastOffset(elements: seq<VertexElement>)
    requires elements != []
    ensures OffsetOf(elements, |elements| - 1) + elements[|elements| - 1].offset == Stride(elements)
  {
    var n := |elements| - 1;
    assert elements == elements[..n] + [elements[n]];
    StrideAppend(elements[..n], [elements[n]]);
  }

  /** Appending an element keeps every earlier offset and adds its width to the stride. */
  lemma AppendKeepsOffsets(elements: seq<VertexElement>, e: VertexElement)
    ensures Stride(elements + [e]) == Stride(elements) + e.offset
    ensures forall i | 0 <= i <= |elements| :: OffsetOf(elements + [e], i) == OffsetOf(elements, i)
  {
    StrideAppend(elements, [e]);
    forall i | 0 <= i <= |elements|
      ensures OffsetOf(elements + [e], i) == OffsetOf(elements, i)
    {
      assert (elements + [e])[..i] == elements[..i];
    }
  }

  class VertexDeclaration {
    var elements: seq<VertexElement>

    constructor ()
      ensures elements == []
    {
      elements := [];
    }

    /** Appends an element; the earlier ones and their order are untouched. */
    method AddElement(name: string, size: int, offset: int)
      modifies this
      ensures elements == old(elements) + [VertexElement(name, size, offset)]
    {
      elements := elements + [VertexElement(name, size, offset)];
    }

    /**
     * Binds the elements in order. Every bound element gets its own size,
     * the total stride and its prefix offset; binding stops at the first
     * element whose attribute is missing, which is reported, and exactly the
     * elements before it have been bound.
     */
    method Setup(lookup: AttribLookup) returns (bindings: seq<AttribPointer>, err: Option<SetupError>)
      ensures |bindings| == FirstMissing(elements, lookup)
      ensures err.None? <==> forall j | 0 <= j < |elements| :: lookup(elements[j].name) != -1
      ensures err.Some? ==> |bindings| < |elements| && err.value == ElementNotFound(elements[|bindings|].name)
      ensures forall j | 0 <= j < |bindings| ::
        bindings[j] == AttribPointer(lookup(elements[j].name), elements[j].size, Stride(elements), OffsetOf(elements, j))
    {
      var stride := 0;
      var i := 0;
      while i < |elements|
        invariant 0 <= i <= |elements|
        invariant stride == Stride(elements[..i])
      {
        assert elements[..i + 1] == elements[..i] + [elements[i]];
        StrideAppend(elements[..i], [elements[i]]);
        stride := stride + elements[i].offset;
        i := i + 1;
      }
      assert elements[..i] == elements;
      var offset := 0;
      bindings := [];
      i := 0;
      while i < |elements|
        invariant 0 <= i <= |elements|
        invariant |bindings| == i
        invariant offset == OffsetOf(elements, i)
        invariant forall j | 0 <= j < i :: lookup(elements[j].name) != -1
        invariant forall j | 0 <= j < i ::
          bindings[j] == AttribPointer(lookup(elements[j].name), elements[j].size, stride, OffsetOf(elements, j))
      {
        var attribute := lookup(elements[i].name);
        if attribute == -1 {
          return bindings, Some(ElementNotFound(elements[i].name));
        }
        bindings := bindings + [AttribPointer(attribute, elements[i].size, stride, offset)];
        assert elements[..i + 1] == elements[..i] + [elements[i]];
        StrideAppend(elements[..i], [elements[i]]);
        offset := offset + elements[i].offset;
        i := i + 1;
      }
      return bindings, None;
    }
  }
}
