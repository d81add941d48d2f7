/** The byte stream that `clientArtifactDigest` feeds to the hash: every path and
    every content, each behind its length. */
module DigestFraming {
  import opened Decimals

  /** One artifact: the bytes of its path and of its content. */
  datatype Artifact = Artifact(path: seq<Byte>, content: seq<Byte>)

  ghost function Field(bytes: seq<Byte>): seq<Byte> {
    Decimal(|bytes|) + [COLON] + bytes
  }

  ghost function Stream(artifacts: seq<Artifact>): seq<Byte> {
    if artifacts == [] then []
    else Field(artifacts[0].path) + Field(artifacts[0].content) + Stream(artifacts[1..])
  }

  /** What is fed for the file `a` with the content `bc`: `1:a2:bc`. */
  lemma OneFileStream()
    ensures Stream([Artifact([97], [98, 99])]) == [49, 58, 97, 50, 58, 98, 99]
  {
    var one := [Artifact([97], [98, 99])];
    assert one[1..] == [];
    assert Decimal(1) == [49] && Decimal(2) == [50];
    assert Field([97]) == [49, 58, 97] && Field([98, 99]) == [50, 58, 98, 99];
  }

  /** The numeral ends at the first colon. */
  lemma NumeralEnds(s: seq<Byte>, n: nat, rest: seq<Byte>)
    requires s == Decimal(n) + [COLON] + rest
    ensures FirstIndex(s, COLON, 0) == |Decimal(n)|
  {
    assert forall j :: 0 <= j < |Decimal(n)| ==> s[j] == Decimal(n)[j];
    IndexAfter(s, COLON, 0, |Decimal(n)|);
  }

  /** A length-prefixed field can be split off in one way only, whatever follows it. */
  lemma FieldSplits(a: seq<Byte>, b: seq<Byte>, x: seq<Byte>, y: seq<Byte>)
    requires Field(a) + x == Field(b) + y
    ensures a == b && x == y
  {
    var s, p, q := Field(a) + x, Decimal(|a|), Decimal(|b|);
    assert s == p + [COLON] + (a + x) == q + [COLON] + (b + y);
    NumeralEnds(s, |a|, a + x);
    NumeralEnds(s, |b|, b + y);
    SplitEqual(p + [COLON], a + x, q + [COLON], b + y);
    SplitEqual(p, [COLON], q, [COLON]);
    ValueOfDecimal(|a|);
    ValueOfDecimal(|b|);
    SplitEqual(a, x, b, y);
  }

  /** Two artifact lists with the same stream are the same list, for arbitrary bytes, digits and colons included. */
  lemma {:induction false} StreamInjective(a: seq<Artifact>, b: seq<Artifact>)
    requires Stream(a) == Stream(b)
    ensures a == b
  {
    if a == [] || b == [] {
      assert a == b by {
        assert a != [] ==> |Stream(a)| > 0;
        assert b != [] ==> |Stream(b)| > 0;
      }
    } else {
      var restA, restB := Stream(a[1..]), Stream(b[1..]);
      assert Field(a[0].path) + (Field(a[0].content) + restA) == Stream(a) == Field(b[0].path) + (Field(b[0].content) + restB);
      FieldSplits(a[0].path, b[0].path, Field(a[0].content) + restA, Field(b[0].content) + restB);
      FieldSplits(a[0].content, b[0].content, restA, restB);
      StreamInjective(a[1..], b[1..]);
      assert a == [a[0]] + a[1..] && b == [b[0]] + b[1..];
    }
  }

  lemma {:induction false} StreamAppend(artifacts: seq<Artifact>, last: Artifact)
    ensures Stream(artifacts + [last]) == Stream(artifacts) + Field(last.path) + Field(last.content)
  {
    if artifacts == [] {
      assert [last][1..] == [];
    } else {
      assert (artifacts + [last])[1..] == artifacts[1..] + [last];
      StreamAppend(artifacts[1..], last);
    }
  }

  /** The hash state of the script, holding the bytes fed so far. */
  class Digest {
    var fed: seq<Byte>

    constructor ()
      ensures fed == []
    {
      fed := [];
    }

    method Update(bytes: seq<Byte>)
      modifies this
      ensures fed == old(fed) + bytes
    {
      fed := fed + bytes;
    }

    /** The length, a colon, the bytes. */
    method UpdateField(bytes: seq<Byte>)
      modifies this
      ensures fed == old(fed) + Field(bytes)
    {
      Update(Decimal(|bytes|) + [COLON]);
      Update(bytes);
    }
  }

  /** The loop of `clientArtifactDigest`; no artifact at all is an error. */
  method FeedArtifacts(artifacts: seq<Artifact>) returns (digest: Digest?)
    ensures digest == null <==> artifacts == []
    ensures digest != null ==> fresh(digest) && digest.fed == Stream(artifacts)
  {
    if |artifacts| == 0 {
      return null;
    }
    var state := new Digest();
    for n := 0 to |artifacts|
      invariant fresh(state) && state.fed == Stream(artifacts[..n])
    {
      var artifact := artifacts[n];
      state.UpdateField(artifact.path);
      state.UpdateField(artifact.content);
      StreamAppend(artifacts[..n], artifact);
      assert artifacts[..n + 1] == artifacts[..n] + [artifact];
    }
    assert artifacts[..|artifacts|] == artifacts;
    digest := state;
  }
}
