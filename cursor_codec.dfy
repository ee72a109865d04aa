/**
  The opaque cursor of a record: the base64 text of the UTF-8 bytes of the key
  option's name followed by ":" and the text of each key field, in key order.
*/
module CursorCodec {
  import opened Wrappers
  import Utf8
  import Base64

  /** A record, seen only through field lookup by name; field values are already text. */
  type Record = map<string, string>

  /** The `{ name, key }` option that says which fields make up a cursor. */
  datatype CursorKeyOption = CursorKeyOption(name: string, key: seq<string>)

  /** The text a template literal gives a field the record does not have. */
  const Undefined: string := "undefined"

  function FieldText(data: Record, field: string): string {
    if field in data then data[field] else Undefined
  }

  /** The left fold over the key fields, each contributing ":" and its text. */
  function CursorKey(key: seq<string>, data: Record): (k: string)
    ensures |k| >= |key|
  {
    if key == [] then ""
    else CursorKey(key[..|key| - 1], data) + ":" + FieldText(data, key[|key| - 1])
  }

  /** The text that is encoded: the name, then the cursor key. */
  function Preimage(keyOption: CursorKeyOption, data: Record): string {
    keyOption.name + CursorKey(keyOption.key, data)
  }

  function Cursor(keyOption: CursorKeyOption, data: Record): string {
    Base64.Encode(Utf8.Encode(Preimage(keyOption, data)))
  }

  /** Two records agree on a field when both lack it or both hold the same text. */
  predicate AgreeOn(r1: Record, r2: Record, field: string) {
    (field in r1 <==> field in r2) && (field in r1 ==> r1[field] == r2[field])
  }

  /** The cursor key read from the front: ":" and the first field, then the rest of the key. */
  function Segments(key: seq<string>, data: Record): string {
    if key == [] then "" else ":" + FieldText(data, key[0]) + Segments(key[1..], data)
  }

  lemma {:induction false} SegmentsSnoc(key: seq<string>, field: string, data: Record)
    ensures Segments(key + [field], data) == Segments(key, data) + ":" + FieldText(data, field)
  {
    if key != [] {
      assert (key + [field])[1..] == key[1..] + [field];
      SegmentsSnoc(key[1..], field, data);
    }
  }

  /** The left fold of the source and the front reading give the same text. */
  lemma {:induction false} CursorKeyIsSegments(key: seq<string>, data: Record)
    ensures CursorKey(key, data) == Segments(key, data)
  {
    if key != [] {
      var init := key[..|key| - 1];
      CursorKeyIsSegments(init, data);
      SegmentsSnoc(init, key[|key| - 1], data);
      assert init + [key[|key| - 1]] == key;
    }
  }

  lemma {:induction false} CursorKeyDeterminedByFields(key: seq<string>, r1: Record, r2: Record)
    requires forall i | 0 <= i < |key| :: FieldText(r1, key[i]) == FieldText(r2, key[i])
    ensures CursorKey(key, r1) == CursorKey(key, r2)
  {
    if key != [] {
      var init := key[..|key| - 1];
      assert forall i | 0 <= i < |init| :: init[i] == key[i];
      CursorKeyDeterminedByFields(init, r1, r2);
    }
  }

  /** The cursor is a function of the name and the key fields alone. */
  lemma SameKeyFieldsSameCursor(keyOption: CursorKeyOption, r1: Record, r2: Record)
    requires forall i | 0 <= i < |keyOption.key| :: AgreeOn(r1, r2, keyOption.key[i])
    ensures Cursor(keyOption, r1) == Cursor(keyOption, r2)
  {
    CursorKeyDeterminedByFields(keyOption.key, r1, r2);
  }

  /** Decoding a cursor gives back the UTF-8 bytes of its preimage, and those the preimage. */
  lemma CursorDecodes(keyOption: CursorKeyOption, data: Record)
    ensures Base64.Decode(Cursor(keyOption, data)) == Some(Utf8.Encode(Preimage(keyOption, data)))
    ensures Utf8.Decode(Utf8.Encode(Preimage(keyOption, data))) == Some(Preimage(keyOption, data))
  {
    Base64.DecodeEncode(Utf8.Encode(Preimage(keyOption, data)));
    Utf8.DecodeEncode(Preimage(keyOption, data));
  }

  /** Equal cursors come only from equal preimages. */
  lemma CursorInjective(o1: CursorKeyOption, d1: Record, o2: CursorKeyOption, d2: Record)
    requires Cursor(o1, d1) == Cursor(o2, d2)
    ensures Preimage(o1, d1) == Preimage(o2, d2)
  {
    Base64.EncodeInjective(Utf8.Encode(Preimage(o1, d1)), Utf8.Encode(Preimage(o2, d2)));
    Utf8.EncodeInjective(Preimage(o1, d1), Preimage(o2, d2));
  }

  /** A cursor is never empty when the name is not. */
  lemma CursorNonEmpty(keyOption: CursorKeyOption, data: Record)
    requires keyOption.name != ""
    ensures Cursor(keyOption, data) != ""
  {
    Base64.EncodeLength(Utf8.Encode(Preimage(keyOption, data)));
  }

  /** A missing field reads as the text "undefined", not as an empty segment. */
  lemma MissingFieldReadsUndefined(keyOption: CursorKeyOption, data: Record, field: string)
    requires field !in data
    ensures Cursor(keyOption, data) == Cursor(keyOption, data[field := Undefined])
  {
    var other := data[field := Undefined];
    forall i | 0 <= i < |keyOption.key|
      ensures FieldText(data, keyOption.key[i]) == FieldText(other, keyOption.key[i])
    {
    }
    CursorKeyDeterminedByFields(keyOption.key, data, other);
  }

  /**
    The ":" separator is not escaped, so records that differ on their key fields can
    share a cursor: "x:y" then "z" and "x" then "y:z" both give the preimage "c:x:y:z".
  */
  lemma ColonMakesCursorsAmbiguous()
    ensures var keyOption := CursorKeyOption("c", ["a", "b"]);
      var r1 := map["a" := "x:y", "b" := "z"];
      var r2 := map["a" := "x", "b" := "y:z"];
      !AgreeOn(r1, r2, "a") && Cursor(keyOption, r1) == Cursor(keyOption, r2)
  {
    var key := ["a", "b"];
    var r1 := map["a" := "x:y", "b" := "z"];
    var r2 := map["a" := "x", "b" := "y:z"];
    assert key[..1] == ["a"] && ["a"][..0] == [];
    assert CursorKey(key, r1) == ":x:y:z";
    assert CursorKey(key, r2) == ":x:y:z";
  }
}
