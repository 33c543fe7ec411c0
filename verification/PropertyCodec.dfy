/**
 * The configuration on its way to the JVM: src/config.rs encodes the properties as one text, separated by tabs with
 * literal tabs doubled, and BackendClient.java takes that text apart again.
 */
module PropertyCodec {
  import opened Prelude
  import opened Text

  datatype Property = Property(name: string, value: string)

  // ----- what is sent

  const SENSITIVE := ["password", "secret", "token", "key", "credential", "vault"]

  predicate IsSensitive(name: string) {
    exists i :: 0 <= i < |SENSITIVE| && Contains(AsciiLower(name), SENSITIVE[i])
  }

  function Sent(properties: seq<Property>): seq<Property> {
    if properties == [] then []
    else (if IsSensitive(properties[0].name) then [] else [properties[0]]) + Sent(properties[1..])
  }

  function Doubled(s: string): string {
    if s == [] then [] else (if s[0] == '\t' then "\t\t" else [s[0]]) + Doubled(s[1..])
  }

  function Chunk(p: Property): string {
    Doubled(p.name) + "=" + Doubled(p.value)
  }

  /** The chunks of the properties with a tab between each two. */
  function Encoded(sent: seq<Property>): string {
    if sent == [] then [] else Chunk(sent[0]) + Tail(sent[1..])
  }

  function Tail(sent: seq<Property>): string {
    if sent == [] then [] else "\t" + Chunk(sent[0]) + Tail(sent[1..])
  }

  lemma {:induction false} TailGrows(sent: seq<Property>, p: Property)
    ensures Tail(sent + [p]) == Tail(sent) + ("\t" + Chunk(p))
  {
    if sent == [] {
      assert Tail([p]) == "\t" + Chunk(p) + Tail([]);
    } else {
      TailGrows(sent[1..], p);
      assert (sent + [p])[1..] == sent[1..] + [p];
      Assoc("\t" + Chunk(sent[0]), Tail(sent[1..]), "\t" + Chunk(p));
    }
  }

  lemma EncodedGrows(sent: seq<Property>, p: Property)
    ensures Encoded(sent + [p]) == Encoded(sent) + (if Encoded(sent) == [] then [] else "\t") + Chunk(p)
  {
    if sent == [] {
      assert Encoded([p]) == Chunk(p) + Tail([]);
    } else {
      assert (sent + [p])[1..] == sent[1..] + [p];
      TailGrows(sent[1..], p);
      Assoc(Chunk(sent[0]), Tail(sent[1..]), "\t" + Chunk(p));
      Assoc(Encoded(sent), "\t", Chunk(p));
    }
  }

  lemma {:induction false} SentGrows(properties: seq<Property>, p: Property)
    ensures Sent(properties + [p]) == if IsSensitive(p.name) then Sent(properties) else Sent(properties) + [p]
  {
    hide IsSensitive;
    if properties != [] {
      SentGrows(properties[1..], p);
      assert (properties + [p])[1..] == properties[1..] + [p];
    } else {
      assert Sent([]) == [];
    }
  }

  /** One of six words occurs in the name, in capitals or not. */
  ghost predicate HoldsSecret(name: string) {
    exists before, word, after :: word in {"password", "secret", "token", "key", "credential", "vault"}
                                  && AsciiLower(name) == before + word + after
  }

  lemma SensitiveNamesHoldASecret(name: string)
    ensures IsSensitive(name) <==> HoldsSecret(name)
  {
    hide AsciiLower;
    var lower := AsciiLower(name);
    if IsSensitive(name) {
      var i :| 0 <= i < |SENSITIVE| && Contains(lower, SENSITIVE[i]);
      var word := SENSITIVE[i];
      var at: nat :| at <= |lower| && OccursAt(lower, word, at);
      assert lower == lower[..at] + word + lower[at + |word|..];
    }
    if HoldsSecret(name) {
      var before, word, after :| word in {"password", "secret", "token", "key", "credential", "vault"}
                                 && lower == before + word + after;
      assert lower[|before|..] == word + after;
      assert OccursAt(lower, word, |before|);
      assert SENSITIVE[0] == "password" && SENSITIVE[1] == "secret" && SENSITIVE[2] == "token";
      assert SENSITIVE[3] == "key" && SENSITIVE[4] == "credential" && SENSITIVE[5] == "vault";
    }
  }

  /** The JVM gets all properties but those with a secret in their names. */
  lemma {:induction false} SecretsAreWithheld(properties: seq<Property>, p: Property)
    ensures p in Sent(properties) <==> p in properties && !HoldsSecret(p.name)
  {
    hide IsSensitive, HoldsSecret;
    if properties != [] {
      var first, rest := properties[0], properties[1..];
      assert properties == [first] + rest;
      SensitiveNamesHoldASecret(first.name);
      SecretsAreWithheld(rest, p);
    }
  }

  /** The separator is written whenever there is output before it, and no property is ever encoded as nothing. */
  method ProtocolProperties(properties: seq<Property>) returns (output: string)
    ensures output == Encoded(Sent(properties))
  {
    hide IsSensitive, Doubled;
    output := [];
    for i := 0 to |properties|
      invariant output == Encoded(Sent(properties[..i]))
    {
      var p := properties[i];
      assert properties[..i + 1] == properties[..i] + [p];
      SentGrows(properties[..i], p);
      if IsSensitive(p.name) {
        continue;
      }
      EncodedGrows(Sent(properties[..i]), p);
      ghost var before := output;
      if output != [] {
        output := output + "\t";
      }
      output := output + Doubled(p.name);
      output := output + "=";
      output := output + Doubled(p.value);
      Assembled(before + (if before == [] then [] else "\t"), p);
    }
    assert properties[..|properties|] == properties;
  }

  lemma Assembled(before: string, p: Property)
    ensures before + Doubled(p.name) + "=" + Doubled(p.value) == before + Chunk(p)
  {
    Assoc(before, Doubled(p.name) + "=", Doubled(p.value));
    Assoc(before, Doubled(p.name), "=");
  }

  // ----- what is received

  /** Takes `s` apart at its single tabs, pairing tabs from the left; `entry` is what the current piece holds so far. */
  function Scan(s: string, entry: string): (pieces: seq<string>)
    ensures pieces != [] && entry <= pieces[0]
  {
    if s == [] then [entry]
    else if s[0] != '\t' then Scan(s[1..], entry + [s[0]])
    else if |s| > 1 && s[1] == '\t' then Scan(s[2..], entry + "\t")
    else [entry] + Scan(s[1..], [])
  }

  function Added(m: map<string, string>, entry: string): map<string, string> {
    var at := IndexOf(entry, '=');
    if at == |entry| then m else m[entry[..at] := entry[at + 1..]]
  }

  function Stored(pieces: seq<string>, m: map<string, string>): map<string, string> {
    if pieces == [] then m else Stored(pieces[1..], Added(m, pieces[0]))
  }

  function Loaded(encoded: string): map<string, string> {
    Stored(Scan(encoded, []), map[])
  }

  class Client {
    var properties: map<string, string>

    constructor ()
      ensures properties == map[]
    {
      properties := map[];
    }

    /** Replaces all properties by those in `encoded`. */
    method LoadProperties(encoded: string)
      modifies this
      ensures properties == Loaded(encoded)
    {
      hide Added, Loaded;
      properties := map[];
      var entry := [];
      var index := 0;
      NothingLeft(encoded);
      while index <= |encoded|
        invariant 0 <= index <= |encoded| + 1
        invariant index <= |encoded| ==> Stored(Scan(encoded[index..], entry), properties) == Loaded(encoded)
        invariant index == |encoded| + 1 ==> properties == Loaded(encoded)
      {
        ghost var rest := encoded[index..];
        if index == |encoded| || encoded[index] == '\t' {
          if index < |encoded| && index + 1 < |encoded| && encoded[index + 1] == '\t' {
            entry := entry + "\t";
            assert rest[2..] == encoded[index + 2..];
            index := index + 2;
            continue;
          }
          FirstPiece(rest, entry, properties);
          ghost var before := properties;
          AddProperty(entry);
          PieceIsAdded(before, entry, properties);
          entry := [];
          assert index < |encoded| ==> rest[1..] == encoded[index + 1..];
        } else {
          entry := entry + [encoded[index]];
          assert rest[1..] == encoded[index + 1..];
        }
        index := index + 1;
      }
    }

    /** A piece without `=` is no property; any other is split at its first one. */
    method AddProperty(entry: string)
      modifies this
      ensures '=' !in entry ==> properties == old(properties)
      ensures forall name, value :: entry == name + ['='] + value && '=' !in name ==>
                properties == old(properties)[name := value]
    {
      ghost var before := properties;
      var equals := IndexOf(entry, '=');
      if equals < |entry| {
        properties := properties[entry[..equals] := entry[equals + 1..]];
      }
      PieceIsAdded(before, entry, properties);
    }
  }

  /** What a piece adds is decided by its first `=`, or by there being none. */
  lemma PieceIsAdded(before: map<string, string>, entry: string, now: map<string, string>)
    ensures ('=' !in entry ==> now == before)
            && (forall name, value :: entry == name + ['='] + value && '=' !in name ==> now == before[name := value])
            <==> now == Added(before, entry)
  {
    var at := IndexOf(entry, '=');
    if at < |entry| {
      var first, rest := entry[..at], entry[at + 1..];
      assert entry == first + ['='] + rest;
      forall name, value | entry == name + ['='] + value && '=' !in name
        ensures name == first && value == rest
      {
        IndexOfIsFirst(name, '=', value);
        assert entry[..|name|] == name && entry[|name| + 1..] == value;
      }
    } else {
      assert entry[..at] == entry;
    }
  }

  lemma NothingLeft(encoded: string)
    ensures Stored(Scan(encoded[0..], []), map[]) == Loaded(encoded)
  {
    assert encoded[0..] == encoded;
  }

  lemma FirstPiece(s: string, entry: string, m: map<string, string>)
    requires s == [] || (s[0] == '\t' && !(|s| > 1 && s[1] == '\t'))
    ensures Stored(Scan(s, entry), m) ==
            if s == [] then Added(m, entry) else Stored(Scan(s[1..], []), Added(m, entry))
  {
    hide Added;
    if s == [] {
      assert Scan(s, entry)[1..] == [];
    } else {
      assert ([entry] + Scan(s[1..], []))[1..] == Scan(s[1..], []);
    }
  }

  // ----- decoding what was encoded

  /** Doubled tabs are paired with each other whatever follows them. */
  lemma {:induction false} ScanDoubled(t: string, rest: string, entry: string)
    ensures Scan(Doubled(t) + rest, entry) == Scan(rest, entry + t)
  {
    if t == [] {
      assert Doubled(t) + rest == rest && entry + t == entry;
    } else {
      var whole := Doubled(t) + rest;
      var more := Doubled(t[1..]) + rest;
      assert whole == (if t[0] == '\t' then "\t\t" else [t[0]]) + more;
      assert whole[if t[0] == '\t' then 2 else 1..] == more;
      ScanDoubled(t[1..], rest, entry + [t[0]]);
      Assoc(entry, [t[0]], t[1..]);
      assert [t[0]] + t[1..] == t;
    }
  }

  function Plain(p: Property): string {
    p.name + "=" + p.value
  }

  lemma ScanChunk(p: Property, rest: string)
    ensures Scan(Chunk(p) + rest, []) == Scan(rest, Plain(p))
  {
    var afterName := "=" + (Doubled(p.value) + rest);
    assert Chunk(p) + rest == Doubled(p.name) + afterName;
    ScanDoubled(p.name, afterName, []);
    assert [] + p.name == p.name;
    assert afterName[1..] == Doubled(p.value) + rest;
    ScanDoubled(p.value, rest, p.name + "=");
  }

  function Plains(sent: seq<Property>): seq<string> {
    if sent == [] then [] else [Plain(sent[0])] + Plains(sent[1..])
  }

  /** No property but the first may have a name that begins with a tab. */
  predicate Separable(sent: seq<Property>) {
    forall i :: 0 < i < |sent| ==> !StartsWithTab(sent[i].name)
  }

  lemma ChunkStartsClean(p: Property)
    requires !StartsWithTab(p.name)
    ensures Chunk(p)[0] != '\t'
  {
  }

  lemma {:induction false} ScanEncoded(sent: seq<Property>)
    requires sent != [] && Separable(sent)
    ensures Scan(Encoded(sent), []) == Plains(sent)
  {
    var rest := sent[1..];
    ScanChunk(sent[0], Tail(rest));
    if rest == [] {
      assert Plains(sent) == [Plain(sent[0])] + [];
    } else {
      var tail := Tail(rest);
      assert tail == "\t" + Chunk(rest[0]) + Tail(rest[1..]);
      assert tail[1..] == Encoded(rest);
      assert rest[0] == sent[1];
      ChunkStartsClean(rest[0]);
      assert tail[1] == Chunk(rest[0])[0];
      assert Separable(rest);
      ScanEncoded(rest);
    }
  }

  // ----- names and values

  predicate DistinctNames(properties: seq<Property>) {
    forall i, j :: 0 <= i < j < |properties| ==> properties[i].name != properties[j].name
  }

  predicate EqualsFree(properties: seq<Property>) {
    forall i :: 0 <= i < |properties| ==> '=' !in properties[i].name
  }

  function Filled(properties: seq<Property>, m: map<string, string>): map<string, string> {
    if properties == [] then m else Filled(properties[1..], m[properties[0].name := properties[0].value])
  }

  lemma {:induction false} StoredPlains(sent: seq<Property>, m: map<string, string>)
    requires EqualsFree(sent)
    ensures Stored(Plains(sent), m) == Filled(sent, m)
  {
    if sent != [] {
      var p := sent[0];
      IndexOfIsFirst(p.name, '=', p.value);
      assert Plain(p)[..|p.name|] == p.name && Plain(p)[|p.name| + 1..] == p.value;
      StoredPlains(sent[1..], m[p.name := p.value]);
      assert Plains(sent)[1..] == Plains(sent[1..]);
    }
  }

  predicate Names(properties: seq<Property>, n: string) {
    exists i :: 0 <= i < |properties| && properties[i].name == n
  }

  lemma {:induction false} FilledElsewhere(properties: seq<Property>, m: map<string, string>, n: string)
    requires !Names(properties, n)
    ensures n in Filled(properties, m) <==> n in m
    ensures n in m ==> Filled(properties, m)[n] == m[n]
  {
    if properties != [] {
      var rest := properties[1..];
      assert forall i :: 0 <= i < |rest| ==> rest[i] == properties[i + 1];
      assert properties[0].name != n;
      FilledElsewhere(rest, m[properties[0].name := properties[0].value], n);
    }
  }

  lemma {:induction false} FilledHolds(properties: seq<Property>, m: map<string, string>, i: nat)
    requires DistinctNames(properties) && i < |properties|
    ensures properties[i].name in Filled(properties, m)
    ensures Filled(properties, m)[properties[i].name] == properties[i].value
  {
    var p, rest := properties[0], properties[1..];
    var more := m[p.name := p.value];
    if i == 0 {
      FilledElsewhere(rest, more, p.name);
    } else {
      FilledHolds(rest, more, i - 1);
    }
  }

  /** `properties` lists the entries of `m`, in the order of its names. */
  predicate Lists(properties: seq<Property>, m: map<string, string>) {
    && DistinctNames(properties)
    && (forall i :: 0 <= i < |properties| ==> properties[i].name in m && m[properties[i].name] == properties[i].value)
    && (forall n :: n in m ==> Names(properties, n))
  }

  function Public(m: map<string, string>): map<string, string> {
    map n | n in m && !IsSensitive(n) :: m[n]
  }

  lemma {:induction false} SentIsSubsequence(properties: seq<Property>)
    ensures forall i :: 0 <= i < |Sent(properties)| ==>
              Sent(properties)[i] in properties && !IsSensitive(Sent(properties)[i].name)
    ensures forall p :: p in properties && !IsSensitive(p.name) ==> p in Sent(properties)
    ensures DistinctNames(properties) ==> DistinctNames(Sent(properties))
  {
    hide IsSensitive;
    if properties != [] {
      var rest := properties[1..];
      SentIsSubsequence(rest);
      assert properties == [properties[0]] + rest;
      if DistinctNames(properties) {
        assert forall i :: 0 <= i < |rest| ==> rest[i] == properties[i + 1];
        assert DistinctNames(rest);
        assert forall p :: p in rest ==> p.name != properties[0].name;
      }
    }
  }

  lemma FilledIsPublic(properties: seq<Property>, m: map<string, string>)
    requires Lists(properties, m)
    ensures Filled(Sent(properties), map[]) == Public(m)
  {
    hide IsSensitive;
    var sent := Sent(properties);
    SentIsSubsequence(properties);
    var filled := Filled(sent, map[]);
    forall n | n in Public(m)
      ensures n in filled && filled[n] == m[n]
    {
      var i :| 0 <= i < |properties| && properties[i].name == n;
      assert properties[i] in sent;
      var k :| 0 <= k < |sent| && sent[k] == properties[i];
      FilledHolds(sent, map[], k);
    }
    forall n | n in filled
      ensures n in Public(m)
    {
      if !Names(sent, n) {
        FilledElsewhere(sent, map[], n);
      }
      var i :| 0 <= i < |sent| && sent[i].name == n;
      assert sent[i] in properties;
    }
  }

  // ----- names that cannot be sent

  lemma {:induction false} StoredKeys(pieces: seq<string>, m: map<string, string>, n: string)
    requires n in Stored(pieces, m)
    ensures n in m || exists i :: 0 <= i < |pieces| && '=' in pieces[i] && n == pieces[i][..IndexOf(pieces[i], '=')]
  {
    if pieces != [] {
      StoredKeys(pieces[1..], Added(m, pieces[0]), n);
      assert forall i :: 0 <= i < |pieces[1..]| ==> pieces[1..][i] == pieces[i + 1];
      if n !in Added(m, pieces[0]) {
        var i :| 0 <= i < |pieces[1..]| && '=' in pieces[1..][i] && n == pieces[1..][i][..IndexOf(pieces[1..][i], '=')];
        assert pieces[i + 1] == pieces[1..][i];
      } else if n !in m {
        assert '=' in pieces[0] && n == pieces[0][..IndexOf(pieces[0], '=')];
      }
    }
  }

  /** A single tab is never followed by a tab, so that no piece but the first can begin with one. */
  lemma {:induction false} LaterPiecesStartClean(s: string, entry: string)
    ensures forall i :: 0 < i < |Scan(s, entry)| ==> !StartsWithTab(Scan(s, entry)[i])
    decreases |s|
  {
    if s == [] {
    } else if s[0] != '\t' {
      LaterPiecesStartClean(s[1..], entry + [s[0]]);
    } else if |s| > 1 && s[1] == '\t' {
      LaterPiecesStartClean(s[2..], entry + "\t");
    } else {
      LaterPiecesStartClean(s[1..], []);
      if |s| > 1 {
        assert Scan(s[1..], []) == Scan(s[1..][1..], [] + [s[1]]);
      }
    }
  }

  lemma FirstPieceIsFirstName(sent: seq<Property>)
    requires sent != [] && '=' !in sent[0].name
    ensures var piece := Scan(Encoded(sent), [])[0];
            '=' in piece && piece[..IndexOf(piece, '=')] == sent[0].name
  {
    var p := sent[0];
    ScanChunk(p, Tail(sent[1..]));
    var piece := Scan(Encoded(sent), [])[0];
    assert Plain(p) <= piece;
    var after := piece[|p.name| + 1..];
    assert piece == p.name + ['='] + after;
    IndexOfIsFirst(p.name, '=', after);
  }

  predicate Unsendable(sent: seq<Property>, i: nat)
    requires i < |sent|
  {
    '=' in sent[i].name || (EqualsFree(sent) && i > 0 && StartsWithTab(sent[i].name))
  }

  lemma UnsendableIsLost(sent: seq<Property>, i: nat)
    requires DistinctNames(sent) && i < |sent| && Unsendable(sent, i)
    ensures sent[i].name !in Loaded(Encoded(sent))
  {
    var pieces := Scan(Encoded(sent), []);
    var n := sent[i].name;
    if n in Loaded(Encoded(sent)) {
      StoredKeys(pieces, map[], n);
      var k :| 0 <= k < |pieces| && '=' in pieces[k] && n == pieces[k][..IndexOf(pieces[k], '=')];
      LaterPiecesStartClean(Encoded(sent), []);
      FirstPieceIsFirstName(sent);
    }
  }

  predicate Sendable(sent: seq<Property>) {
    EqualsFree(sent) && Separable(sent)
  }

  lemma LoadedIsFilled(sent: seq<Property>)
    requires Sendable(sent)
    ensures Loaded(Encoded(sent)) == Filled(sent, map[])
  {
    if sent == [] {
      assert Scan([], []) == [[]];
      assert Stored([[]], map[]) == Stored([], Added(map[], []));
    } else {
      ScanEncoded(sent);
      StoredPlains(sent, map[]);
    }
  }

  lemma UnsendableIsMissed(sent: seq<Property>)
    requires DistinctNames(sent) && !Sendable(sent)
    ensures Loaded(Encoded(sent)) != Filled(sent, map[])
  {
    var i :| 0 <= i < |sent| && if EqualsFree(sent) then 0 < i && StartsWithTab(sent[i].name) else '=' in sent[i].name;
    UnsendableIsLost(sent, i);
    FilledHolds(sent, map[], i);
  }

  // ----- the round trip

  /**
   * The JVM receives exactly the properties that are not sensitive, with their values, if and only if the names sent
   * contain no `=` and none but the first begins with a tab.
   */
  lemma RoundTrip(properties: seq<Property>, m: map<string, string>)
    requires Lists(properties, m)
    ensures Loaded(Encoded(Sent(properties))) == Public(m) <==> Sendable(Sent(properties))
  {
    var sent := Sent(properties);
    SentIsSubsequence(properties);
    FilledIsPublic(properties, m);
    hide *;
    if Sendable(sent) {
      LoadedIsFilled(sent);
    } else {
      UnsendableIsMissed(sent);
    }
  }

  /** Every property that came out of a configuration line arrives unchanged, whatever tabs its value holds. */
  lemma ConfiguredPropertiesArrive(properties: seq<Property>, m: map<string, string>)
    requires Lists(properties, m) && forall n :: n in m ==> CleanName(n)
    ensures Loaded(Encoded(Sent(properties))) == Public(m)
  {
    SentIsSubsequence(properties);
    RoundTrip(properties, m);
  }
}
