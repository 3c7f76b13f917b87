/** The mapping between file paths in git and configuration identities (server/path.go).
    A string is a sequence of Unicode scalar values. */
module PathCodec {
  import opened ConfigTypes

  /** Unicode White_Space, the set that Go's strings.TrimSpace strips. */
  predicate IsSpace(c: char) {
    || '\t' <= c <= '\r'
    || c in {' ', '\U{0085}', '\U{00A0}', '\U{1680}', '\U{2028}', '\U{2029}', '\U{202F}', '\U{205F}', '\U{3000}'}
    || '\U{2000}' <= c <= '\U{200A}'
  }

  predicate IsSlash(c: char) {
    c == '/'
  }

  function TrimLeft(s: string, cut: char -> bool): string {
    if s != [] && cut(s[0]) then TrimLeft(s[1..], cut) else s
  }

  function TrimRight(s: string, cut: char -> bool): string {
    if s != [] && cut(s[|s| - 1]) then TrimRight(s[..|s| - 1], cut) else s
  }

  function Trim(s: string, cut: char -> bool): string {
    TrimRight(TrimLeft(s, cut), cut)
  }

  function NormalizePath(value: string): string {
    Trim(Trim(value, IsSpace), IsSlash)
  }

  /** The index of the last slash, or -1. */
  function LastSlash(s: string): (k: int)
    ensures -1 <= k < |s|
    ensures k >= 0 ==> s[k] == '/'
    ensures forall i :: k < i < |s| ==> s[i] != '/'
  {
    if s == [] then -1
    else if s[|s| - 1] == '/' then |s| - 1
    else LastSlash(s[..|s| - 1])
  }

  /** Everything up to the last slash, that slash dropped, and everything after it. */
  function SplitFile(file: string): Option<ConfigIdentity> {
    var k := LastSlash(file);
    var namespace := if k < 0 then "" else file[..k];
    var configKey := file[k + 1..];
    if namespace == "" || configKey == "" then None
    else Some(ConfigIdentity(namespace, configKey))
  }

  function IdentityFromGitHubPath(rootPath: string, filePath: string): Option<ConfigIdentity> {
    IdentityBelow(NormalizePath(rootPath), NormalizePath(filePath))
  }

  /** A normalized file below a normalized root. */
  function IdentityBelow(root: string, file: string): Option<ConfigIdentity> {
    var prefix := root + "/";
    if root == "" then SplitFile(file)
    else if prefix <= file then SplitFile(file[|prefix|..])
    else None
  }

  /** The identities the codec can produce. */
  predicate ValidIdentity(identity: ConfigIdentity) {
    identity.namespace != "" && identity.configKey != "" && '/' !in identity.configKey
  }

  /** The path of an identity below a root that is already normalized. */
  function JoinPath(root: string, identity: ConfigIdentity): string {
    (if root == "" then "" else root + "/") + (identity.namespace + "/" + identity.configKey)
  }

  /** Every entry of a fetched tree was accepted under its own identity. */
  ghost predicate UnderRoot(rootPath: string, tree: Tree) {
    forall identity :: identity in tree ==> IdentityFromGitHubPath(rootPath, tree[identity].path) == Some(identity)
  }

  lemma SplitFileExact(file: string, identity: ConfigIdentity)
    ensures SplitFile(file) == Some(identity)
       <==> ValidIdentity(identity) && file == identity.namespace + "/" + identity.configKey
  {
    var k := LastSlash(file);
    if SplitFile(file) == Some(identity) {
      assert k >= 0;
      assert file == file[..k] + [file[k]] + file[k + 1..];
      assert '/' !in file[k + 1..];
    }
    if ValidIdentity(identity) && file == identity.namespace + "/" + identity.configKey {
      var n := |identity.namespace|;
      assert file[n] == '/';
      forall i | n < i < |file| ensures file[i] != '/' {
        assert file[i] == identity.configKey[i - n - 1];
      }
      assert k == n;
      assert file[..k] == identity.namespace && file[k + 1..] == identity.configKey;
    }
  }

  /** A prefix and what follows it, as one concatenation. */
  lemma PrefixSplits(prefix: string, file: string, rest: string)
    ensures file == prefix + rest <==> prefix <= file && file[|prefix|..] == rest
  {
    if prefix <= file {
      assert file == prefix + file[|prefix|..];
    }
    if file == prefix + rest {
      assert file[|prefix|..] == rest;
    }
  }

  /** A path is accepted with an identity exactly when, once normalized, it is that
      identity joined to the normalized root. */
  lemma AcceptedExactlyWhenJoined(rootPath: string, filePath: string, identity: ConfigIdentity)
    ensures IdentityFromGitHubPath(rootPath, filePath) == Some(identity)
       <==> ValidIdentity(identity) && NormalizePath(filePath) == JoinPath(NormalizePath(rootPath), identity)
  {
    AcceptedBelow(NormalizePath(rootPath), NormalizePath(filePath), identity);
  }

  /** The same once both are normalized. */
  lemma AcceptedBelow(root: string, file: string, identity: ConfigIdentity)
    ensures IdentityBelow(root, file) == Some(identity) <==> ValidIdentity(identity) && file == JoinPath(root, identity)
  {
    var rest := identity.namespace + "/" + identity.configKey;
    if root == "" {
      SplitFileExact(file, identity);
      assert JoinPath(root, identity) == rest;
    } else {
      var prefix := root + "/";
      PrefixSplits(prefix, file, rest);
      if prefix <= file {
        SplitFileExact(file[|prefix|..], identity);
      }
    }
  }

  /** Two accepted files with one identity are the same file once normalized, so distinct
      normalized paths never collide on an identity. */
  lemma CodecInjective(rootPath: string, file1: string, file2: string)
    requires IdentityFromGitHubPath(rootPath, file1).Some?
    requires IdentityFromGitHubPath(rootPath, file1) == IdentityFromGitHubPath(rootPath, file2)
    ensures NormalizePath(file1) == NormalizePath(file2)
  {
    var identity := IdentityFromGitHubPath(rootPath, file1).value;
    AcceptedExactlyWhenJoined(rootPath, file1, identity);
    AcceptedExactlyWhenJoined(rootPath, file2, identity);
  }

  /** Joining inverts the codec exactly on valid identities whose joined path is a fixed
      point of normalization. */
  lemma RoundTrip(rootPath: string, identity: ConfigIdentity)
    ensures
      var joined := JoinPath(NormalizePath(rootPath), identity);
      IdentityFromGitHubPath(rootPath, joined) == Some(identity)
      <==> ValidIdentity(identity) && NormalizePath(joined) == joined
  {
    AcceptedExactlyWhenJoined(rootPath, JoinPath(NormalizePath(rootPath), identity), identity);
  }

  /** No character of the cut set at either end. */
  predicate Borderless(s: string, cut: char -> bool) {
    s != [] ==> !cut(s[0]) && !cut(s[|s| - 1])
  }

  lemma {:induction false} TrimLeftEdges(s: string, cut: char -> bool)
    ensures |TrimLeft(s, cut)| <= |s|
    ensures TrimLeft(s, cut) != [] ==> !cut(TrimLeft(s, cut)[0])
    ensures TrimLeft(s, cut) != [] ==> TrimLeft(s, cut)[|TrimLeft(s, cut)| - 1] == s[|s| - 1]
  {
    if s != [] && cut(s[0]) {
      TrimLeftEdges(s[1..], cut);
    }
  }

  lemma {:induction false} TrimRightEdges(s: string, cut: char -> bool)
    ensures |TrimRight(s, cut)| <= |s|
    ensures TrimRight(s, cut) != [] ==> !cut(TrimRight(s, cut)[|TrimRight(s, cut)| - 1])
    ensures TrimRight(s, cut) != [] ==> TrimRight(s, cut)[0] == s[0]
  {
    if s != [] && cut(s[|s| - 1]) {
      TrimRightEdges(s[..|s| - 1], cut);
    }
  }

  /** Trimming leaves clean borders, keeps what is already clean and shortens the rest. */
  lemma TrimFacts(s: string, cut: char -> bool)
    ensures Borderless(Trim(s, cut), cut)
    ensures Borderless(s, cut) ==> Trim(s, cut) == s
    ensures |Trim(s, cut)| <= |s|
    ensures !Borderless(s, cut) ==> |Trim(s, cut)| < |s|
  {
    TrimLeftEdges(s, cut);
    TrimRightEdges(TrimLeft(s, cut), cut);
    if s != [] && cut(s[0]) {
      TrimLeftEdges(s[1..], cut);
    } else if s != [] && cut(s[|s| - 1]) {
      TrimRightEdges(s[..|s| - 1], cut);
    }
  }

  /** Trimming keeps the stretch between the first and the last character outside the cut. */
  lemma {:induction false} TrimIsMiddle(s: string, cut: char -> bool) returns (a: nat, b: nat)
    ensures a <= b <= |s| && Trim(s, cut) == s[a..b]
    ensures forall i :: 0 <= i < a || b <= i < |s| ==> cut(s[i])
    ensures a < b ==> !cut(s[a]) && !cut(s[b - 1])
  {
    if s != [] && cut(s[0]) {
      var a', b' := TrimIsMiddle(s[1..], cut);
      a, b := a' + 1, b' + 1;
      assert Trim(s, cut) == Trim(s[1..], cut) && s[1..][a'..b'] == s[a..b];
      forall i | 0 <= i < a || b <= i < |s| ensures cut(s[i]) {
        if i > 0 { assert s[i] == s[1..][i - 1]; }
      }
    } else if s != [] && cut(s[|s| - 1]) {
      var rest := s[..|s| - 1];
      a, b := TrimIsMiddle(rest, cut);
      TrimWithoutLast(s, cut);
      assert rest[a..b] == s[a..b];
      forall i | 0 <= i < a || b <= i < |s| ensures cut(s[i]) {
        if i < |s| - 1 { assert s[i] == rest[i]; }
      }
    } else {
      a, b := 0, |s|;
      assert s[0..|s|] == s;
    }
  }

  lemma TrimWithoutLast(s: string, cut: char -> bool)
    requires s != [] && !cut(s[0]) && cut(s[|s| - 1])
    ensures Trim(s, cut) == Trim(s[..|s| - 1], cut)
  {
    assert TrimLeft(s, cut) == s && TrimLeft(s[..|s| - 1], cut) == s[..|s| - 1];
  }

  predicate OnlySlashes(s: string) {
    forall i :: 0 <= i < |s| ==> s[i] == '/'
  }

  /** The first and the last character that is not a slash, if there is one, are not
      whitespace. */
  predicate NoSpaceBehindSlashes(s: string) {
    forall i :: 0 <= i < |s| && s[i] != '/' && (OnlySlashes(s[..i]) || OnlySlashes(s[i + 1..])) ==> !IsSpace(s[i])
  }

  lemma BorderlessBehindSlashes(s: string)
    ensures Borderless(Trim(s, IsSlash), IsSpace) <==> NoSpaceBehindSlashes(s)
  {
    var a, b := TrimIsMiddle(s, IsSlash);
    var middle := Trim(s, IsSlash);
    if middle != [] {
      assert middle[0] == s[a] && middle[|middle| - 1] == s[b - 1];
      assert OnlySlashes(s[..a]) && OnlySlashes(s[b - 1 + 1..]);
      forall i | 0 <= i < |s| && s[i] != '/' && (OnlySlashes(s[..i]) || OnlySlashes(s[i + 1..]))
        ensures i == a || i == b - 1
      {
        assert i > a ==> s[..i][a] == s[a];
        assert i < b - 1 ==> s[i + 1..][b - 1 - (i + 1)] == s[b - 1];
      }
    }
  }

  /** Normalizing twice is normalizing once if and only if the value, its whitespace stripped,
      has none behind the slashes at its ends. */
  lemma NormalizeIdempotentExactly(value: string)
    ensures NormalizePath(NormalizePath(value)) == NormalizePath(value)
       <==> NoSpaceBehindSlashes(Trim(value, IsSpace))
  {
    var once := NormalizePath(value);
    BorderlessBehindSlashes(Trim(value, IsSpace));
    TrimFacts(Trim(value, IsSpace), IsSlash);
    TrimFacts(once, IsSpace);
    TrimFacts(Trim(once, IsSpace), IsSlash);
  }

  /** Counterexample: the second pass strips the space that the first one has exposed. */
  lemma NormalizeIsNotIdempotent()
    ensures NormalizePath("/ a") == " a" && NormalizePath(NormalizePath("/ a")) == "a"
  {
    assert TrimLeft("/ a", IsSlash) == " a" && TrimLeft(" a", IsSpace) == "a";
  }

  // ----- what normalizing is, on the raw value -----

  predicate AllIn(s: string, cut: char -> bool) {
    forall i :: 0 <= i < |s| ==> cut(s[i])
  }

  lemma {:induction false} TrimLeftOf(lead: string, rest: string, cut: char -> bool)
    requires AllIn(lead, cut)
    ensures TrimLeft(lead + rest, cut) == TrimLeft(rest, cut)
  {
    if lead == "" {
      assert lead + rest == rest;
    } else {
      assert (lead + rest)[1..] == lead[1..] + rest;
      TrimLeftOf(lead[1..], rest, cut);
    }
  }

  lemma {:induction false} TrimRightOf(rest: string, tail: string, cut: char -> bool)
    requires AllIn(tail, cut)
    ensures TrimRight(rest + tail, cut) == TrimRight(rest, cut)
  {
    if tail == "" {
      assert rest + tail == rest;
    } else {
      var last := |tail| - 1;
      assert (rest + tail)[..|rest + tail| - 1] == rest + tail[..last];
      TrimRightOf(rest, tail[..last], cut);
    }
  }

  /** Trimming takes exactly what surrounds a stretch with clean borders. */
  lemma TrimOfSurrounded(lead: string, middle: string, tail: string, cut: char -> bool)
    requires AllIn(lead, cut) && AllIn(tail, cut) && Borderless(middle, cut)
    ensures Trim(lead + (middle + tail), cut) == middle
  {
    TrimLeftOf(lead, middle + tail, cut);
    if middle == "" {
      TrimLeftOf(tail, "", cut);
      assert tail + "" == tail && middle + tail == tail;
    } else {
      TrimRightOf(middle, tail, cut);
    }
  }

  /** The stretches of a raw value: whitespace outside, then slashes, then the rest. */
  datatype Layers = Layers(spaceBefore: string, slashesBefore: string, path: string, slashesAfter: string, spaceAfter: string) {
    function Value(): string {
      spaceBefore + ((slashesBefore + (path + slashesAfter)) + spaceAfter)
    }

    predicate Valid() {
      && AllIn(spaceBefore, IsSpace) && AllIn(spaceAfter, IsSpace)
      && Borderless(slashesBefore + (path + slashesAfter), IsSpace)
      && AllIn(slashesBefore, IsSlash) && AllIn(slashesAfter, IsSlash)
      && Borderless(path, IsSlash)
    }
  }

  lemma LayersNormalize(layers: Layers)
    requires layers.Valid()
    ensures NormalizePath(layers.Value()) == layers.path
  {
    TrimOfSurrounded(
      layers.spaceBefore, layers.slashesBefore + (layers.path + layers.slashesAfter), layers.spaceAfter, IsSpace);
    TrimOfSurrounded(layers.slashesBefore, layers.path, layers.slashesAfter, IsSlash);
  }

  /** The parts of a string around the stretch that trimming keeps. */
  lemma TrimSplits(s: string, cut: char -> bool) returns (lead: string, tail: string)
    ensures s == lead + (Trim(s, cut) + tail)
    ensures AllIn(lead, cut) && AllIn(tail, cut) && Borderless(Trim(s, cut), cut)
  {
    var a, b := TrimIsMiddle(s, cut);
    TrimFacts(s, cut);
    lead, tail := s[..a], s[b..];
    assert s == s[..a] + (s[a..b] + s[b..]);
  }

  /** Every raw value has such stretches, and its normal form is what they surround. */
  lemma NormalizePathExactly(value: string, path: string)
    ensures NormalizePath(value) == path
       <==> exists layers: Layers :: layers.Valid() && layers.Value() == value && layers.path == path
  {
    var spaceBefore, spaceAfter := TrimSplits(value, IsSpace);
    var slashesBefore, slashesAfter := TrimSplits(Trim(value, IsSpace), IsSlash);
    var found := Layers(spaceBefore, slashesBefore, NormalizePath(value), slashesAfter, spaceAfter);
    assert found.Valid() && found.Value() == value;
    if layers: Layers :| layers.Valid() && layers.Value() == value && layers.path == path {
      LayersNormalize(layers);
    }
  }

  /** So padding changes nothing: a root or file written with slashes or whitespace around it
      accepts exactly what its core does. */
  lemma PaddingIsIgnored(root: Layers, file: Layers, identity: ConfigIdentity)
    requires root.Valid() && file.Valid()
    ensures IdentityFromGitHubPath(root.Value(), file.Value()) == Some(identity)
       <==> ValidIdentity(identity)
            && file.path == (if root.path == "" then "" else root.path + "/") + (identity.namespace + "/" + identity.configKey)
  {
    LayersNormalize(root);
    LayersNormalize(file);
    AcceptedExactlyWhenJoined(root.Value(), file.Value(), identity);
  }

  /** A path with neither whitespace nor a slash at its ends is already normalized. */
  lemma CleanPathIsNormalized(value: string)
    requires Borderless(value, IsSpace) && Borderless(value, IsSlash)
    ensures NormalizePath(value) == value
  {
    TrimFacts(value, IsSpace);
    TrimFacts(value, IsSlash);
  }
}
