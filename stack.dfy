/** The fixed-capacity character stack that the bracket check uses. */
module CharStack {

  /** The capacity of a stack built with the default constructor. */
  const DefaultMaxSize: nat := 256

  class Stack {
    var stackArray: array<char>
    var currentIndex: int
    var maxSize: nat

    /** The top of the stack is `stackArray[currentIndex]`; -1 means empty. */
    ghost predicate Valid()
      reads this
    {
      stackArray.Length == maxSize && -1 <= currentIndex < maxSize
    }

    /** The characters on the stack, bottom first. */
    ghost function Contents(): (s: seq<char>)
      reads this, stackArray
      requires Valid()
      ensures |s| == currentIndex + 1
    {
      stackArray[..currentIndex + 1]
    }

    /** `new Stack()`: an empty stack of capacity 256. */
    constructor ()
      ensures Valid() && fresh(stackArray)
      ensures maxSize == DefaultMaxSize && Contents() == []
    {
      maxSize := DefaultMaxSize;
      stackArray := new char[DefaultMaxSize];
      currentIndex := -1;
    }

    /** `new Stack(size)`: an empty stack of the given capacity. */
    constructor WithSize(size: nat)
      ensures Valid() && fresh(stackArray)
      ensures maxSize == size && Contents() == []
    {
      maxSize := size;
      stackArray := new char[size];
      currentIndex := -1;
    }

    /** Java's `push` throws once `maxSize` characters are stored; callers
        must stay below the capacity. */
    method Push(c: char)
      requires Valid() && |Contents()| < maxSize
      modifies this`currentIndex, stackArray
      ensures Valid() && stackArray == old(stackArray)
      ensures Contents() == old(Contents()) + [c]
    {
      currentIndex := currentIndex + 1;
      stackArray[currentIndex] := c;
    }

    /** Removes and returns the top character. */
    method Pop() returns (c: char)
      requires Valid() && Contents() != []
      modifies this`currentIndex
      ensures Valid()
      ensures c == old(Contents())[|old(Contents())| - 1]
      ensures Contents() == old(Contents())[..|old(Contents())| - 1]
    {
      c := stackArray[currentIndex];
      currentIndex := currentIndex - 1;
    }

    method IsEmpty() returns (b: bool)
      requires Valid()
      ensures b <==> Contents() == []
    {
      b := currentIndex == -1;
    }

    /** The number of characters on the stack (the stack's `currentIndex + 1`). */
    method Size() returns (n: nat)
      requires Valid()
      ensures n == |Contents()|
    {
      n := currentIndex + 1;
    }
  }

  /** A push followed by a pop returns the pushed character and leaves the
      stack as it was: same contents, same capacity, same array. */
  method PushThenPop(st: Stack, c: char) returns (d: char)
    requires st.Valid() && |st.Contents()| < st.maxSize
    modifies st`currentIndex, st.stackArray
    ensures st.Valid() && st.maxSize == old(st.maxSize) && st.stackArray == old(st.stackArray)
    ensures d == c && st.Contents() == old(st.Contents())
  {
    st.Push(c);
    d := st.Pop();
  }
}
