// scripts/scrub-e2e-token.py: replacing secrets in test output, through archives within archives,
// and refusing to pass anything that still shows one.
module ScrubToken {
  import opened Text
  import opened Bytes
  import opened Base64
  import opened Replacement

  datatype Item = Item(name: string, body: bytes)

  // The zip and base64 readers and writers of the standard library; None where they raise.
  datatype Codec = Codec(unzip: bytes -> Option<seq<Item>>, zip: seq<Item> -> bytes, decode: bytes -> Option<bytes>)

  // `data[:2] == b"PK"`
  predicate IsZip(data: bytes) {
    |data| >= 2 && data[0] == 'P' as int && data[1] == 'K' as int
  }

  predicate IsHtml(name: string) {
    EndsWith(name, ".html") || EndsWith(name, ".htm")
  }

  // What the writers write, the readers read.
  ghost predicate Lawful(codec: Codec) {
    && (forall items :: codec.unzip(codec.zip(items)) == Some(items) && IsZip(codec.zip(items)))
    && (forall data :: codec.decode(Encode(data)) == Some(data))
  }

  // `src.read(info.filename)`: of several entries with one name, the last is read.
  function LastBody(dir: seq<Item>, name: string): bytes
    requires exists i :: 0 <= i < |dir| && dir[i].name == name
  {
    var last := dir[|dir| - 1];
    if last.name == name then last.body else LastBody(dir[..|dir| - 1], name)
  }

  function Items(dir: seq<Item>): (items: seq<Item>)
    ensures |items| == |dir| && forall i :: 0 <= i < |dir| ==> items[i].name == dir[i].name
  {
    seq(|dir|, i requires 0 <= i < |dir| => Item(dir[i].name, LastBody(dir, dir[i].name)))
  }

  // `data:application/zip;base64,` and as much base64 as follows.
  const MARKER: bytes := Ascii("data:application/zip;base64,")

  function Run64(s: bytes): (n: nat)
    ensures n <= |s|
    ensures forall i :: 0 <= i < n ==> IsBase64(s[i])
    ensures n < |s| ==> !IsBase64(s[n])
  {
    if s == [] || !IsBase64(s[0]) then 0 else 1 + Run64(s[1..])
  }

  // The length of the inline archive at the front of the data, 0 if there is none.
  function BlobLength(data: bytes): nat {
    if MARKER <= data then Run64(data[|MARKER|..]) else 0
  }

  // scrub_zip_bytes, scrub_bytes and the substitution of inline archives. `depth` is how far Python
  // lets the recursion go before it raises.
  function Scrub(codec: Codec, depth: nat, name: string, data: bytes, token: bytes): Option<bytes>
    requires token != []
    decreases depth, 3, 0
  {
    if IsZip(data) then ScrubZip(codec, depth, data, token)
    else
      var text :- if IsHtml(name) then Embed(codec, depth, data, token) else Some(data);
      Some(Replace(text, token))
  }

  function ScrubZip(codec: Codec, depth: nat, data: bytes, token: bytes): Option<bytes>
    requires token != []
    decreases depth, 1, 0
  {
    if depth == 0 then None
    else
      var dir :- codec.unzip(data);
      var items :- ScrubItems(codec, depth - 1, Items(dir), token);
      Some(codec.zip(items))
  }

  function ScrubItems(codec: Codec, depth: nat, items: seq<Item>, token: bytes): Option<seq<Item>>
    requires token != []
    decreases depth, 4, |items|
  {
    if items == [] then Some([])
    else
      var n := |items| - 1;
      var before :- ScrubItems(codec, depth, items[..n], token);
      var body :- Scrub(codec, depth, items[n].name, items[n].body, token);
      Some(before + [Item(items[n].name, body)])
  }

  function Embed(codec: Codec, depth: nat, data: bytes, token: bytes): Option<bytes>
    requires token != []
    decreases depth, 2, |data|
  {
    var n := BlobLength(data);
    if data == [] then Some([])
    else if n > 0 then
      var archive :- codec.decode(data[|MARKER|..|MARKER| + n]);
      var clean :- ScrubZip(codec, depth, archive, token);
      var rest :- Embed(codec, depth, data[|MARKER| + n..], token);
      Some(MARKER + Encode(clean) + rest)
    else
      var rest :- Embed(codec, depth, data[1..], token);
      Some([data[0]] + rest)
  }

  function ScrubAll(codec: Codec, depth: nat, name: string, data: bytes, tokens: seq<bytes>): Option<bytes>
    requires forall i :: 0 <= i < |tokens| ==> tokens[i] != []
  {
    if tokens == [] then Some(data)
    else
      var n := |tokens| - 1;
      var before :- ScrubAll(codec, depth, name, data, tokens[..n]);
      Scrub(codec, depth, name, before, tokens[n])
  }

  // The same as the script runs it

  method ScrubZipBytes(codec: Codec, depth: nat, data: bytes, token: bytes) returns (out: Option<bytes>)
    requires token != []
    ensures out == ScrubZip(codec, depth, data, token)
    decreases depth, 1
  {
    if depth == 0 { return None; }
    var dir := codec.unzip(data);
    if dir.None? { return None; }
    var items := Items(dir.value);
    var written := [];
    for i := 0 to |items|
      invariant ScrubItems(codec, depth - 1, items[..i], token) == Some(written)
    {
      assert items[..i + 1][..i] == items[..i];
      FailedItemFailsAll(codec, depth - 1, items, i + 1, token);
      var body := ScrubBytes(codec, depth - 1, items[i].name, items[i].body, token);
      if body.None? { return None; }
      written := written + [Item(items[i].name, body.value)];
    }
    assert items[..|items|] == items;
    out := Some(codec.zip(written));
  }

  method ScrubBytes(codec: Codec, depth: nat, name: string, data: bytes, token: bytes) returns (out: Option<bytes>)
    requires token != []
    ensures out == Scrub(codec, depth, name, data, token)
    decreases depth, 2
  {
    if IsZip(data) {
      out := ScrubZipBytes(codec, depth, data, token);
      return;
    }
    var text := Some(data);
    if IsHtml(name) {
      text := Embed(codec, depth, data, token);
    }
    if text.None? { return None; }
    out := Some(Replace(text.value, token));
  }

  lemma FailedItemFailsAll(codec: Codec, depth: nat, items: seq<Item>, i: nat, token: bytes)
    requires token != [] && i <= |items|
    ensures ScrubItems(codec, depth, items[..i], token).None? ==> ScrubItems(codec, depth, items, token).None?
    decreases |items| - i
  {
    if i < |items| {
      assert items[..i + 1][..i] == items[..i];
      FailedItemFailsAll(codec, depth, items, i + 1, token);
    } else {
      assert items[..i] == items;
    }
  }

  // Archives, entry by entry

  lemma {:induction false} ItemsAreScrubbed(codec: Codec, depth: nat, items: seq<Item>, token: bytes)
    requires token != [] && ScrubItems(codec, depth, items, token).Some?
    ensures var out := ScrubItems(codec, depth, items, token).value;
            && |out| == |items|
            && forall i :: 0 <= i < |items| ==>
                 out[i].name == items[i].name && Scrub(codec, depth, items[i].name, items[i].body, token) == Some(out[i].body)
  {
    if items != [] {
      ItemsAreScrubbed(codec, depth, items[..|items| - 1], token);
    }
  }

  // Entries of one name have one body.
  ghost predicate Agreeing(items: seq<Item>) {
    forall i, j :: 0 <= i < |items| && 0 <= j < |items| && items[i].name == items[j].name ==> items[i].body == items[j].body
  }

  lemma {:induction false} LastBodyIs(dir: seq<Item>, name: string, body: bytes)
    requires forall j :: 0 <= j < |dir| && dir[j].name == name ==> dir[j].body == body
    requires exists i :: 0 <= i < |dir| && dir[i].name == name
    ensures LastBody(dir, name) == body
  {
    var n := |dir| - 1;
    if dir[n].name != name {
      var i :| 0 <= i < |dir| && dir[i].name == name;
      assert dir[..n][i] == dir[i];
      LastBodyIs(dir[..n], name, body);
    }
  }

  lemma AgreeingItems(dir: seq<Item>)
    ensures Agreeing(Items(dir))
    ensures Agreeing(dir) ==> Items(dir) == dir
  {
    if Agreeing(dir) {
      forall i | 0 <= i < |dir| ensures Items(dir)[i] == dir[i] {
        LastBodyIs(dir, dir[i].name, dir[i].body);
      }
    }
  }

  // The entries of an archive `zip` wrote from what scrubbing left of the entries of another.
  lemma ZipIsReread(codec: Codec, depth: nat, data: bytes, token: bytes)
    requires Lawful(codec) && token != [] && ScrubZip(codec, depth, data, token).Some?
    ensures depth > 0 && codec.unzip(data).Some?
    ensures var items := Items(codec.unzip(data).value);
            var out := ScrubItems(codec, depth - 1, items, token);
            && out.Some? && Agreeing(out.value) && |out.value| == |items|
            && ScrubZip(codec, depth, data, token).value == codec.zip(out.value)
            && codec.unzip(codec.zip(out.value)) == Some(out.value) && Items(out.value) == out.value
            && IsZip(codec.zip(out.value))
  {
    var items := Items(codec.unzip(data).value);
    var out := ScrubItems(codec, depth - 1, items, token).value;
    ItemsAreScrubbed(codec, depth - 1, items, token);
    AgreeingItems(codec.unzip(data).value);
    AgreeingItems(out);
  }

  // Leaves

  lemma LeafStaysLeaf(data: bytes, token: bytes)
    requires token != [] && !IsZip(data)
    ensures !IsZip(Replace(data, token))
  {
    PlaceholderBytes(0);
    var r := Replace(data, token);
    if |token| <= |data| && data[..|token|] != token {
      var rest := Replace(data[1..], token);
      assert r == [data[0]] + rest;
      if |data[1..]| >= |token| && data[1..][..|token|] == token {
        assert rest[0] == OPEN;
      }
    }
  }

  lemma MarkerBytes(i: nat)
    ensures i < |MARKER| ==> MARKER[i] != OPEN && MARKER[i] != CLOSE
  {
    var text := "data:application/zip;base64,";
    assert |MARKER| == |text|;
    assert i < |text| ==> text[i] != '[' && text[i] != ']';
    assert i < |text| ==> MARKER[i] == text[i] as int % 256;
    assert i < |text| ==> text[i] < 128 as char;
  }
}
