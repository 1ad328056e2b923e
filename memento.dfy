/**
 * Mementos: objects that read and write one value. A filter memento stores
 * the values of its own type in an inner memento of another type, through
 * a pair of transforms; the base 64 memento stores bytes as the text of
 * their encoding.
 */
module Mementos {
  import opened FileSystem
  import Base64

  /**
   * An inner memento holding one value. Mementos are an interface, so the
   * one behind a filter may fail: when `fault` is set, reading and writing
   * raise that failure and change nothing.
   */
  class Cell<T> {
    var value: T
    var fault: Option<FsError>

    constructor (value: T, fault: Option<FsError>)
      ensures this.value == value && this.fault == fault
    {
      this.value := value;
      this.fault := fault;
    }

    method Read() returns (r: Result<T>)
      ensures fault.Some? ==> r == Err(fault.value)
      ensures fault.None? ==> r == Ok(value)
    {
      if fault.Some? {
        return Err(fault.value);
      }
      r := Ok(value);
    }

    method Write(b: T) returns (o: Outcome)
      modifies this
      ensures fault == old(fault)
      ensures old(fault).Some? ==> o == Fail(old(fault).value) && value == old(value)
      ensures old(fault).None? ==> o == Pass && value == b
    {
      if fault.Some? {
        return Fail(fault.value);
      }
      value := b;
      o := Pass;
    }
  }

  /**
   * A memento of values of type U kept in an inner memento of type T, fixed
   * at construction. `transformFrom` turns a value into what the inner
   * memento stores; `transformTo` turns what it stores back, and may throw.
   */
  class FilterMemento<U, T> {
    const inner: Cell<T>
    const transformFrom: U -> T
    const transformTo: T -> Result<U>

    constructor (m: Cell<T>, from: U -> T, to: T -> Result<U>)
      ensures inner == m && transformFrom == from && transformTo == to
    {
      inner := m;
      transformFrom := from;
      transformTo := to;
    }

    /** read: the inner memento's value, transformed; its failure propagates unchanged. */
    method Read() returns (r: Result<U>)
      ensures inner.fault.Some? ==> r == Err(inner.fault.value)
      ensures inner.fault.None? ==> r == transformTo(inner.value)
    {
      var t := inner.Read();
      if t.Err? {
        return Err(t.error);
      }
      r := transformTo(t.value);
    }

    /** write: the transformed value goes to the inner memento; its failure propagates unchanged. */
    method Write(b: U) returns (o: Outcome)
      modifies inner
      ensures inner.fault == old(inner.fault)
      ensures old(inner.fault).Some? ==> o == Fail(old(inner.fault).value) && inner.value == old(inner.value)
      ensures old(inner.fault).None? ==> o == Pass && inner.value == transformFrom(b)
    {
      var t := transformFrom(b);
      o := inner.Write(t);
    }
  }

  // ---------------------------------------------------------------------
  // The base 64 memento

  /** transformFrom of the base 64 memento: the encoded text of the bytes, alphabet and "=" only. */
  function TransformFrom(b: seq<byte>): (t: string)
    ensures |t| == 4 * ((|b| + 2) / 3)
    ensures forall i :: 0 <= i < |t| ==>
      t[i] == '=' || t[i] == '+' || t[i] == '/' || 'A' <= t[i] <= 'Z' || 'a' <= t[i] <= 'z' || '0' <= t[i] <= '9'
  {
    Base64.EncodedText(b);
    Base64.EncodeToString(b)
  }

  /** transformTo of the base 64 memento: the decoded bytes of the text; malformed text is an illegal argument. */
  function TransformTo(t: string): (r: Result<seq<byte>>)
    ensures r.Err? ==> r.error == IllegalArgument
  {
    Base64.DecodeString(t)
  }

  /** Decoding what the memento stored gives back the bytes, for every byte sequence. */
  lemma TransformRoundTrip(b: seq<byte>)
    ensures TransformTo(TransformFrom(b)) == Ok(b)
  {
    Base64.DecodeEncodeString(b);
  }

  /** new Base64Memento(m): the filter memento with the two base 64 transforms over `m`. */
  method NewBase64Memento(m: Cell<string>) returns (f: FilterMemento<seq<byte>, string>)
    ensures fresh(f) && f.inner == m
    ensures f.transformFrom == TransformFrom && f.transformTo == TransformTo
  {
    f := new FilterMemento(m, TransformFrom, TransformTo);
  }

  /**
   * A value written through a base 64 memento reads back unchanged, while the
   * inner memento holds its encoded text; with a failing inner memento both
   * calls fail with its failure.
   */
  method Base64WriteThenRead(f: FilterMemento<seq<byte>, string>, b: seq<byte>) returns (o: Outcome, r: Result<seq<byte>>)
    requires f.transformFrom == TransformFrom && f.transformTo == TransformTo
    modifies f.inner
    ensures old(f.inner.fault).None? ==> o == Pass && r == Ok(b) && f.inner.value == TransformFrom(b)
    ensures old(f.inner.fault).Some? ==> o == Fail(old(f.inner.fault).value) && r == Err(old(f.inner.fault).value)
  {
    o := f.Write(b);
    r := f.Read();
    TransformRoundTrip(b);
  }
}
