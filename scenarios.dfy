/** A short client sequence of bump-allocator calls, whose expected answers
    follow from the contracts alone. */
module Scenarios {
  import opened Allocator
  import BumpAllocator

  /** Pages come off the top of the range, bytes off the bottom, and the
      byte area is reclaimed once its last allocation is freed. */
  method EarlyAllocatorClient() {
    var a := new BumpAllocator.EarlyAllocator(4);
    a.Init(0, 8);
    var p := a.AllocPages(1, 4);
    assert p == Ok(4);
    var big := a.Alloc(Layout(5, 1));
    assert big == Err(NoMemory);
    var small := a.Alloc(Layout(3, 2));
    assert small == Ok(0) && a.bPos == 3;
    a.Dealloc(0, Layout(3, 2));
    assert a.bPos == 0;
  }
}
