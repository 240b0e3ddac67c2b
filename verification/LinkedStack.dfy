/** The linked stack of the call-tree builder. */
module LinkedStack {
  import opened Wrappers

  /** A link and everything below it; a link is never changed once it has been made. */
  datatype Element<T> = Nil | Element(value: T, next: Element<T>)

  /** The values from the bottom of the stack to its top. */
  ghost function Values<T>(e: Element<T>): seq<T> {
    match e case Nil => [] case Element(value, next) => Values(next) + [value]
  }

  class Stack<T> {
    var top: Element<T>
    var size: nat

    ghost predicate Valid()
      reads this
    {
      size == |Values(top)|
    }

    ghost function Contents(): seq<T>
      reads this
    {
      Values(top)
    }

    constructor ()
      ensures Valid() && Contents() == []
    {
      top, size := Nil, 0;
    }

    method Push(value: T)
      requires Valid()
      modifies this
      ensures Valid() && Contents() == old(Contents()) + [value]
    {
      top := Element(value, top);
      size := size + 1;
    }

    /** Nothing, and no change, on an empty stack. */
    method Pop() returns (value: Option<T>)
      requires Valid()
      modifies this
      ensures Valid()
      ensures old(Contents()) == [] ==> value == None && Contents() == []
      ensures old(Contents()) != [] ==> value.Some? && old(Contents()) == Contents() + [value.value]
    {
      if size > 0 {
        value := Some(top.value);
        top, size := top.next, size - 1;
      } else {
        value := None;
      }
    }
  }
}
