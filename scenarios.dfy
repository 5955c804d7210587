/** The repository's own uses of the container, replayed against the model:
    the gtest cases of test.cpp, the demo of main.cpp, the push_back sequence
    property, copy independence, and inputs on which the headers misbehave. */
module Scenarios {
  import opened Sequences
  import opened Growth
  import opened Blocks
  import RootVector
  import IncVector

  /** mvector<int> mv(5), then push_back(i) while i < mv.capacity(), with the
      root header. */
  method FilledRoot() returns (mv: RootVector.MVector<int>)
    ensures fresh(mv) && fresh(mv.data) && mv.Valid()
    ensures mv.capacity == 5 && mv.Elements() == [0, 1, 2, 3, 4]
  {
    mv := new RootVector.MVector<int>.WithCapacity(0, 5);
    var i := 0;
    while i < mv.Capacity()
      invariant fresh(mv) && fresh(mv.data) && mv.Valid()
      invariant mv.capacity == 5 && 0 <= i <= 5
      invariant mv.Elements() == seq(i, k => k)
    {
      mv.PushBack(i);
      i := i + 1;
    }
  }

  /** The same fill with inc/mvector.h: no push_back grows, so none faults. */
  method FilledInc() returns (mv: IncVector.MVector<int>)
    ensures fresh(mv) && fresh(mv.data) && mv.Valid()
    ensures mv.capacity == 5 && mv.Elements() == [0, 1, 2, 3, 4]
  {
    mv := new IncVector.MVector<int>.WithCapacity(0, 5);
    var i := 0;
    while i < mv.Capacity()
      invariant fresh(mv) && fresh(mv.data) && mv.Valid()
      invariant mv.capacity == 5 && 0 <= i <= 5
      invariant mv.Elements() == seq(i, k => k)
    {
      var r := mv.PushBack(i, None);
      i := i + 1;
    }
  }

  /** VectorPushBack: capacity stays 5, mv[4] == 4 and mv[1] == 1. */
  method VectorPushBackTest() returns (capacity: nat, last: int, second: int)
    ensures capacity == 5 && last == 4 && second == 1
  {
    var mv := FilledRoot();
    capacity := mv.Capacity();
    last := mv.Get(mv.Capacity() - 1);
    second := mv.Get(1);
  }

  /** VectorInsert: insert(89, begin()) into the full vector doubles the
      capacity, puts 89 first and shifts the rest. */
  method VectorInsertTest() returns (first: int, size: nat, capacity: nat, elements: seq<int>)
    ensures first == 89 && size == 6 && capacity == 10
    ensures elements == [89, 0, 1, 2, 3, 4]
  {
    var mv := FilledRoot();
    var r := mv.Insert(89, 0);
    first := mv.Get(0);
    size, capacity, elements := mv.Size(), mv.Capacity(), mv.Elements();
  }

  /** VectorInsert as written: mv.begin() points into the block that the
      growing resize frees before insert computes `pos - begin()`. */
  method VectorInsertTestAsWritten() returns (r: Outcome)
    ensures r == StalePointer
  {
    var mv := FilledRoot();
    r := mv.InsertAtPointer(89, Pointer(mv.data, 0));
  }

  /** VectorInsert with inc/mvector.h, with the position read at the call (as
      written, `pos - begin()` is first taken from the freed block): the resize
      sets size_ to 10, and the insert's copy loop then writes slot 10 of the
      10-slot block. */
  method VectorInsertTestInc() returns (r: Outcome)
    ensures r == WriteOutOfBounds(10, 10)
  {
    var mv := FilledInc();
    r := mv.Insert(89, 0, None);
  }

  /** How main.cpp's operator<< shows a string element: the string itself. */
  function Show(s: string): string
  {
    s
  }

  /** main.cpp: mvector<string> v(5); push "b", "d"; erase the last element;
      insert "c" before the (new) last element, printing after each step. */
  method DemoMain() returns (first: string, second: string, third: string)
    ensures first == "b d " && second == "b " && third == "c b "
  {
    RenderedSteps();
    var v := new RootVector.MVector<string>.WithCapacity("", 5);
    v.PushBack("b");
    v.PushBack("d");
    assert v.Elements() == ["b", "d"];
    var p := v.End() - 1;
    first := RootVector.Render(v, Show);
    assert first == "b d ";
    v.Erase(p);
    assert v.Elements() == ["b"];
    second := RootVector.Render(v, Show);
    assert second == "b ";
    p := v.End() - 1;
    var r := v.Insert("c", p);
    assert v.Elements() == ["c", "b"];
    third := RootVector.Render(v, Show);
  }

  /** What operator<< writes for the three states of the demo. */
  lemma RenderedSteps()
    ensures Rendered(["b", "d"], Show) == "b d "
    ensures Rendered(["b"], Show) == "b "
    ensures Rendered(["c", "b"], Show) == "c b "
  {
    assert ["b", "d"][..1] == ["b"];
    assert ["c", "b"][..1] == ["c"];
    assert ["b"][..0] == [];
    assert ["c"][..0] == [];
  }

  /** Pushing xs one by one into mvector(0) yields exactly xs, with the
      capacity the growth policy predicts for |xs| pushes. */
  method PushAll<T>(blank: T, xs: seq<T>) returns (v: RootVector.MVector<T>)
    ensures v.Valid() && v.Elements() == xs
    ensures v.capacity == AfterPushes(|xs|).capacity
  {
    v := new RootVector.MVector<T>.WithCapacity(blank, 0);
    for i := 0 to |xs|
      invariant fresh(v) && fresh(v.data) && v.Valid()
      invariant v.Elements() == xs[..i]
      invariant v.capacity == AfterPushes(i).capacity
    {
      v.PushBack(xs[i]);
      assert xs[..i + 1] == xs[..i] + [xs[i]];
    }
    assert xs[..|xs|] == xs;
  }

  /** pop_back undoes push_back on the live elements. */
  method PushThenPopRestores<T>(v: RootVector.MVector<T>, x: T)
    requires v.Valid()
    modifies v, v.data
    ensures v.Valid() && v.Elements() == old(v.Elements())
  {
    v.PushBack(x);
    v.PopBack();
    assert v.Elements() == (old(v.Elements()) + [x])[..|old(v.Elements())|];
  }

  /** erase at the position of an insert undoes the insert on the live
      elements, and the capacity the insert reached is kept. */
  method InsertThenEraseRestores<T>(v: RootVector.MVector<T>, x: T, p: nat)
    requires v.Valid() && 0 < v.capacity && p <= v.size
    modifies v
    ensures v.Valid() && v.Elements() == old(v.Elements())
    ensures v.capacity == InsertCapacity(old(v.size), old(v.capacity))
  {
    var r := v.Insert(x, p);
    v.Erase(p);
    RemoveAtInsertAt(old(v.Elements()), p, x);
  }

  /** Copy independence: a push_back on the source after copy-construction
      leaves the copy as it was. */
  method CopyIsIndependent() returns (copy: seq<string>, source: seq<string>)
    ensures copy == ["a"] && source == ["a", "b"]
  {
    var v := new RootVector.MVector<string>.WithCapacity("", 2);
    v.PushBack("a");
    var w := new RootVector.MVector<string>.Copy(v);
    v.PushBack("b");
    copy, source := w.Elements(), v.Elements();
  }

  /** v = v with the root header: the element "x" becomes "" (T()). */
  method SelfAssignmentClearsContents() returns (before: seq<string>, after: seq<string>)
    ensures before == ["x"] && after == [""]
  {
    var v := new RootVector.MVector<string>.WithCapacity("", 1);
    v.PushBack("x");
    before := v.Elements();
    v.Assign(v);
    after := v.Elements();
  }

  /** The same self-assignment through the guarded operator= keeps "x". */
  method GuardedSelfAssignmentKeepsContents() returns (after: seq<string>)
    ensures after == ["x"]
  {
    var v := new RootVector.MVector<string>.WithCapacity("", 1);
    v.PushBack("x");
    v.AssignGuarded(v);
    after := v.Elements();
  }

  /** insert into a root-header vector made with mvector(0): the write of the
      value is at slot 0 of a zero-slot block. */
  method InsertIntoEmptyFaults() returns (r: Outcome)
    ensures r == WriteOutOfBounds(0, 0)
  {
    var v := new RootVector.MVector<int>.WithCapacity(0, 0);
    r := v.Insert(7, 0);
  }

  /** The same insert with push_back's growth step lands the value. */
  method InsertGrowingIntoEmpty() returns (elements: seq<int>, capacity: nat)
    ensures elements == [7] && capacity == 8
  {
    var v := new RootVector.MVector<int>.WithCapacity(0, 0);
    v.InsertGrowing(7, 0);
    elements, capacity := v.Elements(), v.Capacity();
  }

  /** The first push_back into an inc-header mvector(0): reserve(8) sets size_
      to 8 and the value is stored at slot 8 of the 8-slot block. */
  method IncFirstPushBackFaults() returns (r: Outcome)
    ensures r == WriteOutOfBounds(8, 8)
  {
    var v := new IncVector.MVector<int>.WithCapacity(0, 0);
    r := v.PushBack(7, None);
  }

  /** The same push_back over a reserve that keeps size_ appends the value. */
  method IncFirstPushBackGrowing() returns (r: Outcome, elements: seq<int>, capacity: nat)
    ensures r == Done && elements == [7] && capacity == 8
  {
    var v := new IncVector.MVector<int>.WithCapacity(0, 0);
    r := v.PushBackGrowing(7, None);
    elements, capacity := v.Elements(), v.Capacity();
  }

  /** A push_back into a full inc-header vector whose second element throws
      when copied: the exception reaches the caller and the vector is as it
      was (strong guarantee). */
  method IncCopyFailureRollsBack() returns (r: Outcome, elements: seq<int>, capacity: nat)
    ensures r == CopyFailed(1) && elements == [3, 4] && capacity == 2
  {
    var v := new IncVector.MVector<int>.WithCapacity(0, 2);
    var r0 := v.PushBack(3, None);
    var r1 := v.PushBack(4, None);
    r := v.PushBack(5, Some(1));
    elements, capacity := v.Elements(), v.Capacity();
  }
}
