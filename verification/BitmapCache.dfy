/** Bitmaps as objects, and the write-back cache the follower keeps over them. */
module BitmapCache {
  import opened Base
  import I = Index

  /** A set of IDs that is changed in place. */
  class Bitmap {
    var ids: set<nat>

    constructor ()
      ensures ids == {}
    {
      ids := {};
    }

    method Add(id: nat)
      modifies this
      ensures ids == old(ids) + {id}
    {
      ids := ids + {id};
    }

    method Remove(id: nat)
      modifies this
      ensures ids == old(ids) - {id}
    {
      ids := ids - {id};
    }

    method AddRange(lo: nat, hi: nat)
      modifies this
      ensures forall id :: id in ids <==> id in old(ids) || lo <= id < hi
    {
      var i := lo;
      while i < hi
        invariant i == lo || lo <= i <= hi
        invariant forall id :: id in ids <==> id in old(ids) || lo <= id < i
      {
        ids := ids + {i};
        i := i + 1;
      }
    }

    method Or(other: Bitmap)
      modifies this
      ensures ids == old(ids) + old(other.ids)
    {
      ids := ids + other.ids;
    }

    method And(other: Bitmap)
      modifies this
      ensures ids == old(ids) * old(other.ids)
    {
      ids := ids * other.ids;
    }
  }

  /** A fresh bitmap, so that changing it in place cannot change what is stored. */
  method GetBitmap<V(==)>(ix: I.Index<V>, name: Str, value: V) returns (bm: Bitmap)
    ensures fresh(bm) && bm.ids == I.Look(ix, name, value)
  {
    bm := new Bitmap();
    if (name, value) in ix {
      bm.ids := ix[(name, value)];
    }
  }

  /**
   * One half of the cache: the bitmap records of one kind in the running
   * batch, and the bitmaps loaded from them. The source writes this code once
   * for string values and once for numbers.
   */
  class BitmapCache<V(==,!new)> {
    var batch: I.Index<V>
    var bitmaps: map<(Str, V), Bitmap>
    // The index that writing every change through would have left.
    ghost var written: I.Index<V>
    // The loaded bitmaps as objects.
    ghost var objects: set<Bitmap>

    /**
     * Each entry has a bitmap of its own, which holds what the written-through
     * index holds; for a pair without an entry the batch itself does.
     */
    ghost predicate Valid()
      reads this, objects
    {
      && (forall k :: k in bitmaps ==> bitmaps[k] in objects)
      && (forall j, k :: j in bitmaps && k in bitmaps && bitmaps[j] == bitmaps[k] ==> j == k)
      && I.NoEmpty(written) && I.NoEmpty(batch)
      && (forall k :: k in bitmaps ==> bitmaps[k].ids == I.Look(written, k.0, k.1))
      && (forall k :: k in batch.Keys + written.Keys && k !in bitmaps ==>
            I.Look(batch, k.0, k.1) == I.Look(written, k.0, k.1))
    }

    constructor (ix: I.Index<V>)
      requires I.NoEmpty(ix)
      ensures Valid() && batch == written == ix && objects == {}
    {
      batch := ix;
      bitmaps := map[];
      written := ix;
      objects := {};
    }

    /** The cached bitmap of a pair, loaded from the batch on first use. */
    method Load(name: Str, value: V) returns (bitmap: Bitmap)
      requires Valid()
      modifies this`bitmaps, this`objects
      ensures Valid() && fresh(objects - old(objects))
      ensures (name, value) in bitmaps && bitmaps[(name, value)] == bitmap
    {
      var k := (name, value);
      if k in bitmaps {
        bitmap := bitmaps[k];
      } else {
        bitmap := GetBitmap(batch, name, value);
        bitmaps := bitmaps[k := bitmap];
        objects := objects + {bitmap};
      }
    }

    method AddToBitmap(name: Str, value: V, id: nat)
      requires Valid()
      modifies this, objects
      ensures Valid() && fresh(objects - old(objects)) && batch == old(batch)
      ensures written == I.Add(old(written), name, value, id)
    {
      var bitmap := Load(name, value);
      bitmap.Add(id);
      I.WriteLook(written, name, value, bitmap.ids);
      written := I.Add(written, name, value, id);
    }

    method RemoveFromBitmap(name: Str, value: V, id: nat)
      requires Valid()
      modifies this, objects
      ensures Valid() && fresh(objects - old(objects)) && batch == old(batch)
      ensures written == I.Remove(old(written), name, value, id)
    {
      var bitmap := Load(name, value);
      bitmap.Remove(id);
      I.WriteLook(written, name, value, bitmap.ids);
      written := I.Remove(written, name, value, id);
    }

    /**
     * Write every cached bitmap to the batch, deleting the empty ones: the
     * batch alone then holds the written-through index.
     */
    method Flush()
      requires Valid()
      modifies this`batch
      ensures batch == written
    {
      var todo := bitmaps.Keys;
      while todo != {}
        invariant todo <= bitmaps.Keys && I.NoEmpty(batch)
        invariant forall k :: k in bitmaps && k !in todo ==> I.Look(batch, k.0, k.1) == I.Look(written, k.0, k.1)
        invariant forall k :: k in batch.Keys + written.Keys && k !in bitmaps ==>
                    I.Look(batch, k.0, k.1) == I.Look(written, k.0, k.1)
        decreases todo
      {
        var k :| k in todo;
        I.WriteLook(batch, k.0, k.1, bitmaps[k].ids);
        batch := I.Write(batch, k.0, k.1, bitmaps[k].ids);
        todo := todo - {k};
      }
      forall n, v
        ensures I.Look(batch, n, v) == I.Look(written, n, v)
      {
        var k := (n, v);
        assert k in bitmaps || k in batch.Keys + written.Keys || (k !in batch && k !in written);
      }
      I.SameAnswers(batch, written);
    }

    /** The loop that adds an entity's attributes, passing over those that are not indexed. */
    method AddAttributes(attrs: map<Str, V>, skip: set<Str>, id: nat)
      requires Valid()
      modifies this, objects
      ensures Valid() && fresh(objects - old(objects)) && batch == old(batch)
      ensures written == I.AddAll(old(written), attrs - skip, id)
    {
      var todo := attrs.Keys;
      ghost var start := written;
      I.StepsBounds(start, attrs, skip, id);
      while todo != {}
        invariant todo <= attrs.Keys && I.NoEmpty(start)
        invariant Valid() && fresh(objects - old(objects)) && batch == old(batch)
        invariant written == I.AddAll(start, attrs - skip - todo, id)
        decreases todo
      {
        var k :| k in todo;
        I.AddAllStep(start, attrs, skip, todo, k, id);
        todo := todo - {k};
        if k in skip {
          continue;
        }
        AddToBitmap(k, attrs[k], id);
      }
    }

    method RemoveAttributes(attrs: map<Str, V>, skip: set<Str>, id: nat)
      requires Valid()
      modifies this, objects
      ensures Valid() && fresh(objects - old(objects)) && batch == old(batch)
      ensures written == I.RemoveAll(old(written), attrs - skip, id)
    {
      var todo := attrs.Keys;
      ghost var start := written;
      I.StepsBounds(start, attrs, skip, id);
      while todo != {}
        invariant todo <= attrs.Keys && I.NoEmpty(start)
        invariant Valid() && fresh(objects - old(objects)) && batch == old(batch)
        invariant written == I.RemoveAll(start, attrs - skip - todo, id)
        decreases todo
      {
        var k :| k in todo;
        I.RemoveAllStep(start, attrs, skip, todo, k, id);
        todo := todo - {k};
        if k in skip {
          continue;
        }
        RemoveFromBitmap(k, attrs[k], id);
      }
    }
  }
}
