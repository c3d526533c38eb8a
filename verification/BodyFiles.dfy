/** Body files as the lines they hold: what reading at a location and streaming give back. */
module BodyFiles {
  import opened Octets
  import opened Wrappers
  import opened StoreModel

  /** The bytes of a body file that holds these records, one line each. */
  function Render(env: Env, bodies: seq<BodyRec>): seq<Byte> {
    if bodies == [] then [] else Render(env, bodies[..|bodies| - 1]) + env.enc(Last(bodies)) + [LF]
  }

  /** Where line `k` starts. */
  function Offset(env: Env, bodies: seq<BodyRec>, k: nat): nat
    requires k <= |bodies|
  {
    if k == 0 then 0 else Offset(env, bodies, k - 1) + |env.enc(bodies[k - 1])| + 1
  }

  /** `rec` points at line `k` of a body file. */
  predicate Located(env: Env, bodies: seq<BodyRec>, rec: MetaRec, k: nat) {
    && k < |bodies|
    && bodies[k].id == rec.id
    && rec.off == Offset(env, bodies, k)
    && rec.len == |env.enc(bodies[k])|
  }

  lemma {:induction false} OffsetGrows(env: Env, bodies: seq<BodyRec>, b: BodyRec, k: nat)
    requires k <= |bodies|
    ensures Offset(env, bodies + [b], k) == Offset(env, bodies, k)
  {
    if k > 0 {
      OffsetGrows(env, bodies, b, k - 1);
    }
  }

  lemma {:induction false} RenderLength(env: Env, bodies: seq<BodyRec>)
    ensures |Render(env, bodies)| == Offset(env, bodies, |bodies|)
  {
    if bodies != [] {
      var init := bodies[..|bodies| - 1];
      RenderLength(env, init);
      OffsetGrows(env, init, Last(bodies), |init|);
      assert bodies == init + [Last(bodies)];
    }
  }

  lemma {:induction false} RenderAt(env: Env, bodies: seq<BodyRec>, k: nat)
    requires k < |bodies|
    ensures var off := Offset(env, bodies, k);
      && off + |env.enc(bodies[k])| < |Render(env, bodies)|
      && Render(env, bodies)[off..off + |env.enc(bodies[k])|] == env.enc(bodies[k])
  {
    var init := bodies[..|bodies| - 1];
    assert bodies == init + [Last(bodies)];
    RenderLength(env, init);
    OffsetGrows(env, init, Last(bodies), k);
    if k < |init| {
      RenderAt(env, init, k);
      var off := Offset(env, init, k);
      assert Render(env, bodies)[off..off + |env.enc(bodies[k])|] == Render(env, init)[off..off + |env.enc(init[k])|];
    } else {
      var off := |Render(env, init)|;
      assert Render(env, bodies)[off..off + |env.enc(Last(bodies))|] == env.enc(Last(bodies));
    }
  }

  lemma LocatedGrows(env: Env, bodies: seq<BodyRec>, b: BodyRec, rec: MetaRec, k: nat)
    requires Located(env, bodies, rec, k)
    ensures Located(env, bodies + [b], rec, k)
  {
    OffsetGrows(env, bodies, b, k);
  }

  /** Reading at a location gives the record that was written there. */
  lemma ReadLocated(env: Env, s: Segs, bodies: seq<BodyRec>, rec: MetaRec, k: nat)
    requires Lawful(env)
    requires rec.seg in s.disk && s.disk[rec.seg].body == Render(env, bodies)
    requires Located(env, bodies, rec, k)
    ensures ReadBodyAt(env, s, rec) == Some(bodies[k])
  {
    RenderAt(env, bodies, k);
    assert env.dec(env.enc(bodies[k])) == Some(bodies[k]);
  }

  // ----- streaming -----

  lemma {:induction false} LineEndStops(bytes: seq<Byte>, i: nat, e: nat)
    requires i <= e < |bytes| && bytes[e] == LF
    requires forall k :: i <= k < e ==> bytes[k] != LF
    ensures LineFeed(bytes, i) == e
    decreases e - i
  {
    if i < e {
      LineEndStops(bytes, i + 1, e);
    }
  }

  lemma FirstLine(bytes: seq<Byte>, e: nat)
    requires e < |bytes| && bytes[e] == LF
    requires forall k :: 0 <= k < e ==> bytes[k] != LF
    ensures Lines(bytes) == [DropCr(bytes[..e])] + Lines(bytes[e + 1..])
  {
    LineEndStops(bytes, 0, e);
  }

  lemma OneLine(line: seq<Byte>)
    requires LF !in line && CR !in line
    ensures Lines(line + [LF]) == [line]
  {
    var all := line + [LF];
    FirstLine(all, |line|);
    assert all[..|line|] == line;
    assert all[|line| + 1..] == [];
  }

  lemma {:induction false} LinesSnoc(bytes: seq<Byte>, line: seq<Byte>)
    requires bytes == [] || Last(bytes) == LF
    requires LF !in line && CR !in line
    ensures Lines(bytes + line + [LF]) == Lines(bytes) + [line]
    decreases |bytes|, 1
  {
    if bytes == [] {
      OneLine(line);
      assert bytes + line + [LF] == line + [LF];
    } else {
      var e := LineFeed(bytes, 0);
      assert e < |bytes| by {
        assert bytes[|bytes| - 1] == LF;
      }
      FirstLine(bytes, e);
      LinesSnocStep(bytes, line, e);
    }
  }

  lemma {:induction false} LinesSnocStep(bytes: seq<Byte>, line: seq<Byte>, e: nat)
    requires bytes != [] && Last(bytes) == LF && LF !in line && CR !in line
    requires e < |bytes| && bytes[e] == LF && forall k :: 0 <= k < e ==> bytes[k] != LF
    ensures Lines(bytes + line + [LF]) == [DropCr(bytes[..e])] + Lines(bytes[e + 1..]) + [line]
    decreases |bytes|, 0
  {
    var all := bytes + line + [LF];
    var rest := bytes[e + 1..];
    assert all[e] == bytes[e];
    FirstLine(all, e);
    assert all[..e] == bytes[..e];
    assert all[e + 1..] == rest + line + [LF];
    LinesSnoc(rest, line);
  }

  function Encoded(env: Env, bodies: seq<BodyRec>): seq<seq<Byte>> {
    if bodies == [] then [] else Encoded(env, bodies[..|bodies| - 1]) + [env.enc(Last(bodies))]
  }

  lemma {:induction false} LinesOfRender(env: Env, bodies: seq<BodyRec>)
    requires Lawful(env)
    ensures Lines(Render(env, bodies)) == Encoded(env, bodies)
  {
    if bodies != [] {
      LinesOfRender(env, bodies[..|bodies| - 1]);
      LinesSnoc(Render(env, bodies[..|bodies| - 1]), env.enc(Last(bodies)));
    }
  }

  lemma {:induction false} DecodedSnoc(env: Env, lines: seq<seq<Byte>>, b: BodyRec)
    requires Lawful(env)
    ensures Decoded(env, lines + [env.enc(b)]) == Decoded(env, lines) + [b]
  {
    assert env.dec(env.enc(b)) == Some(b);
    var all := lines + [env.enc(b)];
    if lines == [] {
      assert all[1..] == [];
    } else {
      DecodedSnoc(env, lines[1..], b);
      assert all[1..] == lines[1..] + [env.enc(b)];
    }
  }

  lemma {:induction false} DecodedEncoded(env: Env, bodies: seq<BodyRec>)
    requires Lawful(env)
    ensures Decoded(env, Encoded(env, bodies)) == bodies
  {
    if bodies != [] {
      var init := bodies[..|bodies| - 1];
      DecodedEncoded(env, init);
      DecodedSnoc(env, Encoded(env, init), Last(bodies));
      assert bodies == init + [Last(bodies)];
    }
  }

  /** Streaming a body file yields its records in the order they were written. */
  lemma StreamYieldsAll(env: Env, s: Segs, n: nat, bodies: seq<BodyRec>)
    requires Lawful(env)
    requires n in s.disk && s.disk[n].body == Render(env, bodies)
    ensures StreamBody(env, s, n) == bodies
  {
    LinesOfRender(env, bodies);
    DecodedEncoded(env, bodies);
  }

  // ----- attachment bytes -----

  lemma {:induction false} SpotsSlice(start: nat, before: seq<Byte>, atts: seq<seq<Byte>>, i: nat)
    requires start == |before| && i < |atts|
    requires forall k :: 0 <= k < |atts| ==> |atts[k]| < 0x1_0000_0000
    ensures var (off, len) := Spots(start, atts)[i];
      off + len <= |before + Flatten(atts)| && (before + Flatten(atts))[off..off + len] == atts[i]
  {
    var init := atts[..|atts| - 1];
    var whole := before + Flatten(atts);
    assert whole == before + Flatten(init) + Last(atts);
    if i < |atts| - 1 {
      SpotsSlice(start, before, init, i);
      var (off, len) := Spots(start, init)[i];
      assert whole[off..off + len] == (before + Flatten(init))[off..off + len];
    } else {
      assert Last(atts) == atts[i];
      var off := start + |Flatten(init)|;
      assert whole[off..off + |Last(atts)|] == Last(atts);
    }
  }

  lemma {:induction false} FlattenBounds(atts: seq<seq<Byte>>, k: nat)
    requires k < |atts|
    ensures |atts[k]| <= |Flatten(atts)|
  {
    if k < |atts| - 1 {
      FlattenBounds(atts[..|atts| - 1], k);
    }
  }
}
