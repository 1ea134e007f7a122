/**
  The singly linked stack of symbols used for the frequency buckets of the
  compressor. A list is passed around by its head pointer; `push` and `pop`
  rewrite that head through a `Node**`, which here becomes an in-parameter
  and a returned new head.
*/
module LinkedList {

  class Node {
    var ch: int
    var next: Node?
    /** The symbols of the list starting at this node, head first. */
    ghost var content: seq<int>
    ghost var footprint: set<Node>

    ghost predicate Valid()
      reads this, footprint
      decreases footprint
    {
      this in footprint &&
      (next == null ==> content == [ch] && footprint == {this}) &&
      (next != null ==>
        next in footprint && next.footprint < footprint && this !in next.footprint &&
        footprint == {this} + next.footprint &&
        content == [ch] + next.content && next.Valid())
    }

    /** `create_node`: a one-node list holding `ch`. */
    constructor (ch: int)
      ensures Valid() && fresh(footprint)
      ensures this.ch == ch && next == null && content == [ch]
    {
      this.ch := ch;
      next := null;
      content := [ch];
      footprint := {this};
    }
  }

  /** The frame of the list at `head`: nothing for the empty list. */
  ghost function Frame(head: Node?): set<Node>
    reads head
  {
    if head == null then {} else head.footprint
  }

  /** The list at `head` is empty or well formed. */
  ghost predicate ListValid(head: Node?)
    reads head, Frame(head)
  {
    head != null ==> head.Valid()
  }

  /** The symbols of the list at `head`, head first. */
  ghost function Contents(head: Node?): seq<int>
    reads head
  {
    if head == null then [] else head.content
  }

  /**
    `linked_list_push`: a new node holding `ch` becomes the head and the old
    list its tail.
  */
  method Push(head: Node?, ch: int) returns (newHead: Node)
    requires ListValid(head)
    ensures newHead.Valid() && fresh(newHead)
    ensures newHead.ch == ch && newHead.next == head
    ensures Contents(newHead) == [ch] + Contents(head)
    ensures newHead.footprint == {newHead} + Frame(head)
  {
    newHead := new Node(ch);
    newHead.next := head;
    if head != null {
      newHead.content := [ch] + head.content;
      newHead.footprint := {newHead} + head.footprint;
    }
  }

  /**
    `linked_list_pop`: an empty list yields -1 and stays empty; otherwise the
    head's symbol is returned and the head moves to the next node.
  */
  method Pop(head: Node?) returns (ch: int, newHead: Node?)
    requires ListValid(head)
    ensures ListValid(newHead)
    ensures head == null ==> ch == -1 && newHead == null
    ensures head != null ==> ch == head.ch && newHead == head.next
    ensures head != null ==>
      ch == Contents(head)[0] && Contents(newHead) == Contents(head)[1..]
  {
    if head == null {
      return -1, null;
    }
    ch := head.ch;
    newHead := head.next;
  }

  /** A pop right after a push returns the pushed symbol and the list as it was. */
  method PopAfterPush(head: Node?, ch: int) returns (popped: int, newHead: Node?)
    requires ListValid(head)
    ensures popped == ch && newHead == head
    ensures ListValid(newHead) && Contents(newHead) == Contents(head)
  {
    var pushed := Push(head, ch);
    popped, newHead := Pop(pushed);
  }

  /**
    `linked_list_free`: walks every list in slots `0..k` of the head array
    and clears those slots; slots above `k` are left alone.
  */
  method Free(heads: array<Node?>, k: int)
    requires k < heads.Length
    requires forall i :: 0 <= i <= k ==> ListValid(heads[i])
    modifies heads
    ensures forall i :: 0 <= i <= k ==> heads[i] == null
    ensures forall i :: 0 <= i < heads.Length && k < i ==> heads[i] == old(heads[i])
  {
    var i := 0;
    while i <= k
      invariant 0 <= i && (i <= k + 1 || i == 0)
      invariant forall j :: 0 <= j < i ==> heads[j] == null
      invariant forall j :: i <= j < heads.Length ==> heads[j] == old(heads[j])
      invariant forall j :: i <= j <= k ==> ListValid(heads[j])
    {
      var current := heads[i];
      while current != null
        invariant ListValid(current)
        decreases |Contents(current)|
      {
        current := current.next;
      }
      heads[i] := null;
      i := i + 1;
    }
  }
}
