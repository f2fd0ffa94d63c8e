/** The entity records as they live in memory: nested objects that a write by path changes
    in place. What a record holds afterwards is what `PathWrites.SetPath` says. */
module Records {
  import opened Types
  import opened PathWrites

  /** A field: a value as it came, or a record that has been written into. */
  datatype Slot = Plain(json: Json) | Nested(rec: MutableRecord)

  class MutableRecord {
    var fields: map<string, Slot>
    ghost var Repr: set<object>

    /** The record under `k`, if there is one, lies within this one. */
    ghost predicate Owns(k: string)
      reads this, Repr
      decreases Repr, 0
    {
      k in fields && fields[k].Nested? ==>
        var r := fields[k].rec;
        this in Repr && r in Repr && r.Repr <= Repr && this !in r.Repr && r.Valid()
    }

    ghost predicate Apart(k: string, l: string)
      reads this, Repr
    {
      k in fields && l in fields && k != l && fields[k].Nested? && fields[l].Nested? ==>
        fields[k].rec in Repr && fields[l].rec in Repr && fields[k].rec.Repr !! fields[l].rec.Repr
    }

    /** The records under all keys but `key` are in order. */
    ghost predicate ValidBut(key: Option<string>)
      reads this, Repr
      decreases Repr, 1
    {
      && this in Repr
      && (forall k :: Some(k) != key ==> Owns(k))
      && (forall k, l :: Some(k) != key && Some(l) != key ==> Apart(k, l))
    }

    ghost predicate Valid()
      reads this, Repr
      ensures Valid() ==> this in Repr
      decreases Repr, 2
    {
      ValidBut(None)
    }

    ghost function Held(k: string): Json
      requires this in Repr && k in fields && Owns(k)
      reads this, Repr
      decreases Repr, 0
    {
      match fields[k]
      case Plain(j) => j
      case Nested(r) => r.Contents()
    }

    ghost function HeldBut(key: Option<string>): map<string, Json>
      requires ValidBut(key)
      reads this, Repr
      decreases Repr, 1
    {
      map k | k in fields && Some(k) != key :: Held(k)
    }

    ghost function Contents(): (j: Json)
      requires Valid()
      reads this, Repr
      ensures j.Obj?
      decreases Repr, 2
    {
      Obj(HeldBut(None))
    }

    constructor (initial: map<string, Json>)
      ensures Valid() && fresh(Repr) && Contents() == Obj(initial)
    {
      fields := map k | k in initial :: Plain(initial[k]);
      Repr := {this};
      new;
      forall k ensures Owns(k) {}
      forall k, l ensures Apart(k, l) {}
      assert HeldBut(None) == initial;
    }

    ghost predicate Aside(k: string, child: MutableRecord)
      reads this, Repr, child
    {
      k in fields && fields[k].Nested? ==> fields[k].rec in Repr && fields[k].rec.Repr !! child.Repr
    }

    /** `child` shares nothing with the records under keys other than `key`. */
    ghost predicate OthersAside(key: string, child: MutableRecord)
      reads this, Repr, child
    {
      forall k :: k != key ==> Aside(k, child)
    }

    /** The record under `key` to write into: the one that is there, or a new one. */
    method ChildRecord(key: string) returns (child: MutableRecord)
      requires Valid()
      ensures child.Valid() && this !in child.Repr
      ensures child.Contents() == Child(Contents(), key)
      ensures child.Repr <= Repr || fresh(child.Repr)
      ensures OthersAside(key, child)
    {
      assert Owns(key);
      if key in fields && fields[key].Nested? {
        child := fields[key].rec;
        forall k | k != key ensures Aside(k, child) { assert Owns(k) && Apart(k, key); }
        assert Held(key) == child.Contents();
      } else if key in fields && fields[key].json.Obj? {
        assert Held(key) == fields[key].json;
        child := new MutableRecord(fields[key].json.fields);
        forall k | k != key ensures Aside(k, child) { assert Owns(k); }
      } else {
        assert key in fields ==> Held(key) == fields[key].json;
        child := new MutableRecord(map[]);
        forall k | k != key ensures Aside(k, child) { assert Owns(k); }
      }
    }

    lemma AllBut(key: string)
      requires Valid()
      ensures ValidBut(Some(key)) && HeldBut(Some(key)) == Contents().fields - {key}
    {
    }

    method Put(key: string, value: Json)
      requires ValidBut(Some(key))
      modifies this
      ensures Valid() && Repr == old(Repr)
      ensures Contents() == Obj(old(HeldBut(Some(key)))[key := value])
    {
      fields := fields[key := Plain(value)];
      forall k ensures Owns(k) { assert k != key ==> old(Owns(k)); }
      forall k, l ensures Apart(k, l) { assert k != key && l != key ==> old(Apart(k, l)); }
      forall k | k in fields && k != key ensures Held(k) == old(Held(k)) {
        assert old(Owns(k));
        assert fields[k].Nested? ==> fields[k].rec.Contents() == old(fields[k].rec.Contents());
      }
      assert HeldBut(None) == old(HeldBut(Some(key)))[key := value];
    }

    method Attach(key: string, child: MutableRecord)
      requires ValidBut(Some(key)) && child.Valid() && this !in child.Repr && OthersAside(key, child)
      modifies this
      ensures Valid() && Repr == old(Repr) + child.Repr
      ensures Contents() == Obj(old(HeldBut(Some(key)))[key := old(child.Contents())])
    {
      fields := fields[key := Nested(child)];
      Repr := Repr + child.Repr;
      assert Owns(key) && Held(key) == child.Contents();
      forall k ensures Owns(k) { assert k != key ==> old(Owns(k)); }
      forall k, l ensures Apart(k, l) {
        assert k != key && l != key ==> old(Apart(k, l));
        assert k != key ==> old(Aside(k, child));
        assert l != key ==> old(Aside(l, child));
        assert Owns(k) && Owns(l);
      }
      forall k | k in fields && k != key ensures Held(k) == old(Held(k)) {
        assert old(Owns(k));
        assert fields[k].Nested? ==> fields[k].rec.Contents() == old(fields[k].rec.Contents());
      }
      assert HeldBut(None) == old(HeldBut(Some(key)))[key := child.Contents()];
    }

    /** Writes `value` at `path`, replacing whatever is not a record on the way. One call
        stands for one turn of the loop that moves the cursor down. */
    method Write(path: Path, value: Json)
      requires Valid()
      modifies Repr
      ensures Valid() && fresh(Repr - old(Repr))
      ensures Contents() == SetPath(old(Contents()), path, value)
      decreases |path|, 0
    {
      if |path| == 1 {
        AllBut(path[0]);
        PutBack(Contents().fields, path[0], value);
        Put(path[0], value);
      } else {
        WriteBelow(path[0], path[1..], value);
      }
    }

    method WriteBelow(key: string, rest: Path, value: Json)
      requires Valid()
      modifies Repr
      ensures Valid() && fresh(Repr - old(Repr))
      ensures Contents() == Obj(old(Contents()).fields[key := SetPath(Child(old(Contents()), key), rest, value)])
      decreases |rest|, 2
    {
      AllBut(key);
      PutBack(Contents().fields, key, SetPath(Child(Contents(), key), rest, value));
      var child := ChildRecord(key);
      WriteAside(key, child, rest, value);
      Attach(key, child);
    }

    /** Writing into a record that shares nothing with the others leaves the others alone. */
    method WriteAside(key: string, child: MutableRecord, rest: Path, value: Json)
      requires ValidBut(Some(key)) && child.Valid() && this !in child.Repr && OthersAside(key, child)
      modifies child.Repr
      ensures ValidBut(Some(key)) && child.Valid() && this !in child.Repr && OthersAside(key, child)
      ensures fresh(child.Repr - old(child.Repr)) && Repr == old(Repr)
      ensures HeldBut(Some(key)) == old(HeldBut(Some(key)))
      ensures child.Contents() == SetPath(old(child.Contents()), rest, value)
      decreases |rest|, 1
    {
      child.Write(rest, value);
      forall k | k != key ensures Owns(k) && Aside(k, child) { assert old(Owns(k) && Aside(k, child)); }
      forall k, l | k != key && l != key ensures Apart(k, l) {
        assert old(Apart(k, l) && Owns(k) && Owns(l) && Aside(k, child) && Aside(l, child));
      }
      forall k | k in fields && k != key ensures Held(k) == old(Held(k)) {
        assert old(Owns(k) && Aside(k, child));
        assert fields[k].Nested? ==> fields[k].rec.Contents() == old(fields[k].rec.Contents());
      }
    }
  }

  lemma PutBack(fields: map<string, Json>, key: string, value: Json)
    ensures (fields - {key})[key := value] == fields[key := value]
  {
  }
}
