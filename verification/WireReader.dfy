/** The cursor both transaction parsers read from. */
module WireReader {
  import opened ByteStrings
  import opened Wire

  /** A step of the cursor computes a decoder: same value, same unread bytes, same failure. */
  ghost predicate Computes<T>(r: Result<T, WireError>, rest: Bytes, spec: Parsed<T>) {
    match r
    case Ok(value) => spec == Ok((value, rest))
    case Err(error) => spec == Err(error)
  }

  class Reader {
    const bytes: Bytes
    var position: nat

    constructor (bytes: Bytes)
      ensures this.bytes == bytes && Valid() && Rest() == bytes
    {
      this.bytes, position := bytes, 0;
    }

    ghost predicate Valid()
      reads this
    {
      position <= |bytes|
    }

    function Rest(): (rest: Bytes)
      reads this
      requires position <= |bytes|
    {
      bytes[position..]
    }

    method ReadArray(n: nat) returns (r: Result<Bytes, WireError>)
      requires Valid()
      modifies this
      ensures Valid() && Computes(r, Rest(), Take(old(Rest()), n))
    {
      if position + n > |bytes| {
        return Err(Encoding);
      }
      r := Ok(bytes[position..position + n]);
      assert bytes[position..][..n] == bytes[position..position + n] && bytes[position..][n..] == bytes[position + n..];
      position := position + n;
    }

    method ReadWord(n: nat) returns (r: Result<nat, WireError>)
      requires Valid()
      modifies this
      ensures Valid() && Computes(r, Rest(), ReadLE(old(Rest()), n))
    {
      var word :- ReadArray(n);
      return Ok(FromLE(word));
    }

    /** Reads a compact size, refusing a non-minimal form and a value above the configured limit. */
    method ReadSize(maximum: nat) returns (r: Result<nat, WireError>)
      requires Valid()
      modifies this
      ensures Valid() && Computes(r, Rest(), ReadCompactSize(old(Rest()), maximum))
    {
      if position == |bytes| {
        return Err(Encoding);
      }
      var marker := bytes[position];
      assert Rest()[1..] == bytes[position + 1..];
      position := position + 1;
      var value: nat := marker;
      if marker >= 0xfd {
        value :- ReadWord(Width(marker));
      }
      if value < Least(marker) {
        return Err(Encoding);
      }
      if value > maximum {
        return Err(Bounds);
      }
      return Ok(value);
    }

    method ReadBytes(maximum: nat) returns (r: Result<Bytes, WireError>)
      requires Valid()
      modifies this
      ensures Valid() && Computes(r, Rest(), ReadVarBytes(old(Rest()), maximum))
    {
      var length :- ReadSize(maximum);
      r := ReadArray(length);
    }
  }
}
