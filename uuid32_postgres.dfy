/** The database adapter: a `uuid` column travels as its 16 raw bytes. */
module Uuid32Postgres {
  import opened Outcomes
  import opened Uuids
  import opened Uuid32Codec

  /** The protocol's complaint about a `uuid` value of the wrong size. */
  datatype SqlError = InvalidMessageLength(length: nat)

  /** `from_sql`: the raw value is accepted exactly when it holds 16 bytes,
      which become the identifier's bytes unchanged. */
  function FromSql(raw: seq<Byte>): (r: Result<Uuid32, SqlError>)
    ensures r.Ok? <==> |raw| == 16
    ensures r.Ok? ==> r.value.inner.bytes == raw
    ensures r.Err? ==> r.error.length == |raw|
  {
    if |raw| == 16 then Ok(FromUuid(Uuid(raw))) else Err(InvalidMessageLength(|raw|))
  }

  /** `to_sql`: the identifier's 16 bytes, most significant first. */
  function ToSql(v: Uuid32): (out: seq<Byte>)
    ensures |out| == 16
    ensures BigEndian(out) == AsU128(v.inner)
  {
    FromU128OfAsU128(v.inner);
    v.inner.bytes
  }

  /** Writing a value and reading it back gives the value. */
  lemma FromSqlToSql(v: Uuid32)
    ensures FromSql(ToSql(v)) == Ok(v)
  {
  }

  /** Reading accepted bytes and writing the value back gives the bytes. */
  lemma ToSqlFromSql(raw: seq<Byte>)
    requires FromSql(raw).Ok?
    ensures ToSql(FromSql(raw).value) == raw
  {
  }
}
