/** The list of open documents and which of them is active. */
module BufferManager {
  import Documents

  class BufManager {
    var buffers: seq<Documents.Document>
    var activeBuffer: nat

    /** The active index points at a buffer whenever there is one, and is 0 when
        there is none. */
    predicate Valid()
      reads this
    {
      if buffers == [] then activeBuffer == 0 else activeBuffer < |buffers|
    }

    /** `new`: no buffers, the first one active. */
    constructor ()
      ensures buffers == [] && activeBuffer == 0
      ensures Valid()
    {
      buffers := [];
      activeBuffer := 0;
    }

    /** `add_buffer`: the new document goes at the end and becomes active, except
        that adding to an empty list leaves the index as it was. */
    method AddBuffer(document: Documents.Document)
      modifies this
      ensures buffers == old(buffers) + [document]
      ensures activeBuffer == if old(buffers) == [] then old(activeBuffer) else |buffers| - 1
      ensures old(Valid()) ==> Valid() && activeBuffer == |buffers| - 1
    {
      if |buffers| == 0 {
        buffers := buffers + [document];
      } else {
        buffers := buffers + [document];
        activeBuffer := |buffers| - 1;
      }
    }

    /** `remove_buffer`: the active buffer is removed (`Vec::remove` panics past the
        end) and the buffer before it, if any, becomes active. */
    method RemoveBuffer()
      requires activeBuffer < |buffers|
      modifies this
      ensures buffers == old(buffers[..activeBuffer] + buffers[activeBuffer + 1..])
      ensures |buffers| == old(|buffers|) - 1
      ensures activeBuffer == if old(activeBuffer) != 0 then old(activeBuffer) - 1 else 0
      ensures old(Valid()) ==> Valid()
    {
      buffers := buffers[..activeBuffer] + buffers[activeBuffer + 1..];
      if activeBuffer != 0 {
        activeBuffer := activeBuffer - 1;
      }
    }
  }
}
