/** The buffers a decoder reuses from sentence to sentence. */
module Workspace {
  import opened Hypotheses
  import opened ActiveTable

  class CompactDecodeWorkspace {
    var hypotheses: seq<Hypothesis>
    /** The path each hypothesis stands for. */
    ghost var paths: seq<seq<nat>>
    var current: CompactActiveHypotheses
    var next: CompactActiveHypotheses
    var denseSlots: seq<nat>
    var denseCurrent: seq<nat>
    var denseNext: seq<nat>

    /** What holds between sentences, whatever the last one left in the buffers. */
    ghost predicate Idle()
      reads this, current, next
    {
      current != next && current.Idle() && next.Idle()
    }

    constructor ()
      ensures Idle() && fresh(current) && fresh(next)
    {
      hypotheses, paths := [], [];
      denseSlots, denseCurrent, denseNext := [], [], [];
      current := new CompactActiveHypotheses();
      next := new CompactActiveHypotheses();
    }
  }
}
