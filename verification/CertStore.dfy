/**
 The certificate store of acme.Manager (acme/manager.go): two maps filled together,
 read by GetCertificate. Time is an integer; the clock readings, the outcome of a
 CA request with the file writes behind it, and the directory contents are
 parameters.
 */
module CertStore {
  import opened Text
  import opened Wrappers
  import opened CertFiles

  datatype Certificate = Certificate(serial: nat)

  /** What a request to the CA comes to, in the order in which it can go wrong. */
  datatype Attempt =
    | CaRefused
    | CertNotSaved
    | KeyNotSaved
    | BadKeyPair
    | Obtained(cert: Certificate, notAfter: Option<int>, threeMonthsOn: int)
  {
    function Expiry(): int
      requires Obtained?
    {
      if notAfter.Some? then notAfter.value else threeMonthsOn
    }
  }

  datatype Status = Fine | Failed(why: Attempt)

  // ----- lookups --------------------------------------------------------

  /** The wildcard key that may serve a name. */
  function WildcardName(name: string): Option<string> {
    var parts := Split(name, '.');
    if |parts| >= 2 then Some("*." + Join(parts[1..], ".")) else None
  }

  function Lookup(certs: map<string, Certificate>, name: string): Option<Certificate> {
    if name in certs then Some(certs[name])
    else
      var wildcard := WildcardName(name);
      if wildcard.Some? && wildcard.value in certs then Some(certs[wildcard.value]) else None
  }

  lemma WildcardBelow(leaf: string, rest: string)
    requires '.' !in leaf
    ensures WildcardName(leaf + ['.'] + rest) == Some("*." + rest)
  {
    hide Split, Join;
    var tail := Split(rest, '.');
    SplitAtFirst(leaf, rest, '.');
    assert ([leaf] + tail)[1..] == tail;
    JoinSplit(rest, '.');
  }

  lemma NoWildcardWithoutDot(name: string)
    requires '.' !in name
    ensures WildcardName(name) == None
  {
    SplitWithout(name, '.');
  }

  /** The exact name comes first, then the key with the first label replaced by "*", and nothing else serves. */
  lemma LookupMeaning(certs: map<string, Certificate>, name: string)
    ensures name in certs ==> Lookup(certs, name) == Some(certs[name])
    ensures name !in certs ==> forall leaf, rest | '.' !in leaf && name == leaf + "." + rest ::
        Lookup(certs, name) == if "*." + rest in certs then Some(certs["*." + rest]) else None
    ensures name !in certs && '.' !in name ==> Lookup(certs, name) == None
  {
    hide WildcardName;
    forall leaf, rest | '.' !in leaf && name == leaf + "." + rest
      ensures WildcardName(name) == Some("*." + rest)
    {
      WildcardBelow(leaf, rest);
    }
    if '.' !in name {
      NoWildcardWithoutDot(name);
    }
  }

  // ----- what is due, and what storing does -----------------------------

  /** The domain has no recorded expiry, or less than the renewal window is left of it. */
  predicate Due(meta: map<string, int>, domain: string, now: int, window: int) {
    domain !in meta || meta[domain] - now < window
  }

  /** Some domain is due at the moment the loop reads the clock for it. */
  predicate AnyDue(meta: map<string, int>, domains: seq<string>, now: seq<int>, window: int)
    requires |now| == |domains|
  {
    exists i | 0 <= i < |domains| :: Due(meta, Normalize(domains[i]), now[i], window)
  }

  /** The map after the loop that assigns v to every domain of the list. */
  function StoreAll<V>(m: map<string, V>, domains: seq<string>, v: V): map<string, V> {
    if domains == [] then m
    else
      var n := |domains| - 1;
      StoreAll(m, domains[..n], v)[Normalize(domains[n]) := v]
  }

  /** The key is one of the list's domains once they are normalised. */
  predicate Covers(domains: seq<string>, key: string) {
    exists i | 0 <= i < |domains| :: Normalize(domains[i]) == key
  }

  lemma CoversSplit(domains: seq<string>, key: string)
    requires domains != []
    ensures Covers(domains, key)
        <==> Covers(domains[..|domains| - 1], key) || key == Normalize(domains[|domains| - 1])
  {
    var n := |domains| - 1;
    if Covers(domains, key) {
      var i :| 0 <= i < |domains| && Normalize(domains[i]) == key;
      if i < n {
        assert domains[..n][i] == domains[i];
      }
    }
    if Covers(domains[..n], key) {
      var i :| 0 <= i < n && Normalize(domains[..n][i]) == key;
      assert domains[i] == domains[..n][i];
    }
  }

  /** Storing a bundle sets exactly the keys the list covers, and keeps every other. */
  lemma {:induction false} StoreAllAt<V>(m: map<string, V>, domains: seq<string>, v: V, key: string)
    ensures key in StoreAll(m, domains, v) <==> key in m || Covers(domains, key)
    ensures key in StoreAll(m, domains, v) ==>
        StoreAll(m, domains, v)[key] == if Covers(domains, key) then v else m[key]
    decreases |domains|
  {
    if domains != [] {
      CoversSplit(domains, key);
      StoreAllAt(m, domains[..|domains| - 1], v, key);
    }
  }

  lemma StoredEverywhere<V(!new)>(m: map<string, V>, domains: seq<string>, v: V)
    ensures forall i | 0 <= i < |domains| ::
      Normalize(domains[i]) in StoreAll(m, domains, v) && StoreAll(m, domains, v)[Normalize(domains[i])] == v
  {
    hide Normalize;
    forall i | 0 <= i < |domains|
      ensures Normalize(domains[i]) in StoreAll(m, domains, v) && StoreAll(m, domains, v)[Normalize(domains[i])] == v
    {
      StoreAllAt(m, domains, v, Normalize(domains[i]));
      assert Covers(domains, Normalize(domains[i]));
    }
  }

  // ----- the certificate directory --------------------------------------

  datatype KeyPair = KeyPair(cert: Certificate, notAfter: int, dnsNames: seq<string>)

  /** A directory entry, whether its key file exists, and what parsing the two gives. */
  datatype CertFile = CertFile(name: string, hasKey: bool, pair: Option<KeyPair>)

  /** What listing the certificate directory comes to. */
  datatype Directory = Missing | Unreadable | Entries(files: seq<CertFile>)

  function EntriesOf(dir: Directory): seq<CertFile> {
    if dir.Entries? then dir.files else []
  }

  const CRT := ".crt"

  predicate Usable(f: CertFile) {
    HasSuffix(f.name, CRT) && f.hasKey && f.pair.Some?
  }

  function DomainsOf(f: CertFile): seq<string>
    requires Usable(f)
  {
    if f.pair.value.dnsNames == [] then [Unescape(f.name[..|f.name| - |CRT|])] else f.pair.value.dnsNames
  }

  function CertOf(p: KeyPair): Certificate {
    p.cert
  }

  function ExpiryOf(p: KeyPair): int {
    p.notAfter
  }

  /** The map after the loop that stores, file by file, what each usable one brings under each of its domains. */
  function Loaded<V>(m: map<string, V>, files: seq<CertFile>, value: KeyPair -> V): map<string, V> {
    if files == [] then m
    else
      var f := files[|files| - 1];
      var before := Loaded(m, files[..|files| - 1], value);
      if Usable(f) then StoreAll(before, DomainsOf(f), value(f.pair.value)) else before
  }

  predicate Brings(f: CertFile, key: string) {
    Usable(f) && Covers(DomainsOf(f), key)
  }

  /** The last file of the directory that brings something for the key. */
  function LastBringing(files: seq<CertFile>, key: string): (r: Option<nat>)
    ensures r.Some? ==>
      && r.value < |files| && Brings(files[r.value], key)
      && forall j | r.value < j < |files| :: !Brings(files[j], key)
    ensures r.None? ==> forall j | 0 <= j < |files| :: !Brings(files[j], key)
  {
    if files == [] then None
    else
      var n := |files| - 1;
      if Brings(files[n], key) then Some(n) else LastBringing(files[..n], key)
  }

  /** Loading loses no key, adds exactly those some usable file brings, and lets the last such file win. */
  lemma {:induction false} LoadedAt<V>(m: map<string, V>, files: seq<CertFile>, value: KeyPair -> V, key: string)
    ensures
      var last := LastBringing(files, key);
      && (key in Loaded(m, files, value) <==> key in m || last.Some?)
      && (key in Loaded(m, files, value) ==>
            Loaded(m, files, value)[key] == if last.Some? then value(files[last.value].pair.value) else m[key])
    decreases |files|
  {
    if files != [] {
      var n := |files| - 1;
      LoadedAt(m, files[..n], value, key);
      if Usable(files[n]) {
        StoreAllAt(Loaded(m, files[..n], value), DomainsOf(files[n]), value(files[n].pair.value), key);
      }
    }
  }

  /** A file that is not a certificate, lacks its key or does not parse is passed over. */
  lemma BadFileIsSkipped<V>(m: map<string, V>, files: seq<CertFile>, f: CertFile, value: KeyPair -> V)
    requires f.pair.None? || !f.hasKey || (|f.name| < 4 || f.name[|f.name| - 4..] != ".crt")
    ensures Loaded(m, files + [f], value) == Loaded(m, files, value)
  {
    assert (files + [f])[..|files|] == files;
  }

  /** Every name of every good file's certificate is a key after loading. */
  lemma NamesAreLoaded<V>(m: map<string, V>, files: seq<CertFile>, value: KeyPair -> V, i: nat, j: nat)
    requires i < |files| && files[i].pair.Some? && files[i].hasKey
    requires |files[i].name| >= 4 && files[i].name[|files[i].name| - 4..] == ".crt"
    requires j < |files[i].pair.value.dnsNames|
    ensures Normalize(files[i].pair.value.dnsNames[j]) in Loaded(m, files, value)
  {
    hide Loaded, Normalize;
    var key := Normalize(files[i].pair.value.dnsNames[j]);
    assert Covers(DomainsOf(files[i]), key);
    assert Brings(files[i], key);
    LoadedAt(m, files, value, key);
  }

  /** What the last file of a directory brings under a name of its certificate is what the name has after loading. */
  lemma LastFileWins<V>(m: map<string, V>, files: seq<CertFile>, f: CertFile, value: KeyPair -> V, j: nat)
    requires f.pair.Some? && f.hasKey && |f.name| >= 4 && f.name[|f.name| - 4..] == ".crt"
    requires j < |f.pair.value.dnsNames|
    ensures
      var key, after := Normalize(f.pair.value.dnsNames[j]), Loaded(m, files + [f], value);
      key in after && after[key] == value(f.pair.value)
  {
    hide Normalize;
    assert (files + [f])[..|files|] == files;
    var key := Normalize(f.pair.value.dnsNames[j]);
    assert Covers(DomainsOf(f), key);
    StoreAllAt(Loaded(m, files, value), DomainsOf(f), value(f.pair.value), key);
  }

  /** after has every key of m and every key a file brings, with what the last such file brings, or else what m has. */
  ghost predicate LoadedOver<V(!new)>(
    m: map<string, V>, files: seq<CertFile>, value: KeyPair -> V, after: map<string, V>)
  {
    forall key ::
      match LastBringing(files, key)
      case Some(i) => key in after && after[key] == value(files[i].pair.value)
      case None => (key in after <==> key in m) && (key in after ==> after[key] == m[key])
  }

  lemma LoadedOverAll<V(!new)>(m: map<string, V>, files: seq<CertFile>, value: KeyPair -> V)
    ensures LoadedOver(m, files, value, Loaded(m, files, value))
  {
    hide Loaded;
    forall key ensures
      match LastBringing(files, key)
      case Some(i) => key in Loaded(m, files, value) && Loaded(m, files, value)[key] == value(files[i].pair.value)
      case None =>
        && (key in Loaded(m, files, value) <==> key in m)
        && (key in Loaded(m, files, value) ==> Loaded(m, files, value)[key] == m[key])
    {
      LoadedAt(m, files, value, key);
    }
  }

  /** The file name obtainCertificate saves a bundle under: its first domain, lower-cased but not trimmed. */
  function SavedName(domain: string): string {
    Escape(ToLower(domain)) + CRT
  }

  /** The key a certificate that names no domains is loaded back under. */
  lemma ReloadedKey(domain: string)
    ensures Normalize(Unescape(Escape(ToLower(domain)))) == ToLower(Unescape(Normalize(domain)))
  {
    var l := ToLower(domain);
    UnescapeAfterEscape(l);
    TrimUnescape(l);
    TrimLeftLower(domain);
    TrimRightLower(TrimLeft(domain));
  }

  lemma OneFileLoads(domain: string, pair: KeyPair)
    requires pair.dnsNames == []
    ensures
      var f := CertFile(SavedName(domain), true, Some(pair));
      Usable(f) && Loaded(map[], [f], CertOf) == map[Normalize(Unescape(Escape(ToLower(domain)))) := pair.cert]
  {
    hide Escape, Unescape, Normalize;
    var f := CertFile(SavedName(domain), true, Some(pair));
    var base := Escape(ToLower(domain));
    assert f.name[..|f.name| - |CRT|] == base && f.name[|f.name| - |CRT|..] == CRT;
    assert [f][..0] == [];
    assert Loaded(map[], [f], CertOf) == StoreAll(Loaded(map[], [], CertOf), DomainsOf(f), pair.cert);
    assert DomainsOf(f) == [Unescape(base)];
    assert [Unescape(base)][..0] == [];
  }

  /**
   A certificate that names no domains is loaded back under the domain it was saved
   for exactly when that domain, normalised, does not contain "_wildcard".
   */
  lemma SavedFileIsReloaded(domain: string, pair: KeyPair)
    requires pair.dnsNames == []
    ensures
      Loaded(map[], [CertFile(SavedName(domain), true, Some(pair))], CertOf) == map[Normalize(domain) := pair.cert]
      <==> !Contains(Normalize(domain), WILDCARD)
  {
    hide Escape, Unescape, Normalize, Loaded, SavedName;
    var n, key := Normalize(domain), Normalize(Unescape(Escape(ToLower(domain))));
    OneFileLoads(domain, pair);
    ReloadedKey(domain);
    UnescapeShrinks(n);
    NormalizeIsNormal(domain);
    assert ToLower(n) == n;
    assert key in map[key := pair.cert];
  }

  // ----- the code -------------------------------------------------------

  class Manager {
    const window: int
    var certs: map<string, Certificate>
    var certMeta: map<string, int>

    predicate Valid()
      reads this
    {
      certs.Keys == certMeta.Keys
    }

    constructor (renewBefore: int)
      ensures Valid() && window == renewBefore && certs == map[]
    {
      window := renewBefore;
      certs, certMeta := map[], map[];
    }

    /** Any certificate serves a client that names none; otherwise the name decides. */
    method GetCertificate(serverName: string) returns (r: Option<Certificate>)
      ensures Normalize(serverName) == "" ==> (r.None? <==> certs == map[])
      ensures Normalize(serverName) == "" && r.Some? ==> exists k :: k in certs && certs[k] == r.value
      ensures Normalize(serverName) != "" ==> r == Lookup(certs, Normalize(serverName))
      ensures Normalize(serverName) in certs && Normalize(serverName) != "" ==> r == Some(certs[Normalize(serverName)])
      ensures Normalize(serverName) !in certs && Normalize(serverName) != "" ==>
        forall leaf, rest | '.' !in leaf && Normalize(serverName) == leaf + "." + rest ::
          r == if "*." + rest in certs then Some(certs["*." + rest]) else None
      ensures Normalize(serverName) !in certs && '.' !in Normalize(serverName) && Normalize(serverName) != "" ==>
        r.None?
    {
      var name := Normalize(serverName);
      LookupMeaning(certs, name);
      if name == "" {
        if certs.Keys == {} {
          return None;
        }
        var k :| k in certs.Keys;
        return Some(certs[k]);
      }
      if name in certs {
        return Some(certs[name]);
      }
      var parts := Split(name, '.');
      if |parts| >= 2 {
        var wildcardName := "*." + Join(parts[1..], ".");
        if wildcardName in certs {
          return Some(certs[wildcardName]);
        }
      }
      r := None;
    }

    method EnsureDomains(domains: seq<string>, now: seq<int>, later: seq<int>, attempt: Attempt)
      returns (r: Status, requested: bool)
      requires Valid() && |now| == |domains| == |later|
      modifies this
      ensures Valid()
      ensures requested <==> AnyDue(old(certMeta), domains, now, window) && AnyDue(old(certMeta), domains, later, window)
      ensures requested <==>
        && (exists i | 0 <= i < |domains| ::
              Normalize(domains[i]) !in old(certMeta) || old(certMeta)[Normalize(domains[i])] - now[i] < window)
        && (exists i | 0 <= i < |domains| ::
              Normalize(domains[i]) !in old(certMeta) || old(certMeta)[Normalize(domains[i])] - later[i] < window)
      ensures r == if requested && !attempt.Obtained? then Failed(attempt) else Fine
      ensures if requested && attempt.Obtained?
        then
          && certs == StoreAll(old(certs), domains, attempt.cert)
          && certMeta == StoreAll(old(certMeta), domains, attempt.Expiry())
        else certs == old(certs) && certMeta == old(certMeta)
      ensures requested && attempt.Obtained? ==> forall i | 0 <= i < |domains| ::
          && Normalize(domains[i]) in certs && certs[Normalize(domains[i])] == attempt.cert
          && Normalize(domains[i]) in certMeta
          && certMeta[Normalize(domains[i])] == match attempt.notAfter
             case Some(t) => t
             case None => attempt.threeMonthsOn
      ensures r.Fine? ==> forall i | 0 <= i < |domains| :: Lookup(certs, Normalize(domains[i])).Some?
    {
      r, requested := Fine, false;
      if |domains| == 0 {
        return;
      }
      var missingOrExpiring: seq<string> := [];
      var i := 0;
      while i < |domains|
        modifies {}
        invariant i <= |domains|
        invariant missingOrExpiring != []
            <==> exists j | 0 <= j < i :: Due(certMeta, Normalize(domains[j]), now[j], window)
      {
        var domain := Normalize(domains[i]);
        if domain !in certMeta {
          missingOrExpiring := missingOrExpiring + [domain];
        } else {
          var left := certMeta[domain] - now[i];
          if left < window {
            missingOrExpiring := missingOrExpiring + [domain];
          }
        }
        i := i + 1;
      }
      if |missingOrExpiring| == 0 {
        return;
      }
      r, requested := ObtainCertificate(domains, later, attempt);
    }

    method ObtainCertificate(domains: seq<string>, now: seq<int>, attempt: Attempt)
      returns (r: Status, requested: bool)
      requires Valid() && |now| == |domains|
      modifies this
      ensures Valid()
      ensures requested <==> AnyDue(old(certMeta), domains, now, window)
      ensures requested <==> exists i | 0 <= i < |domains| ::
          Normalize(domains[i]) !in old(certMeta) || old(certMeta)[Normalize(domains[i])] - now[i] < window
      ensures r == if requested && !attempt.Obtained? then Failed(attempt) else Fine
      ensures if requested && attempt.Obtained?
        then
          && certs == StoreAll(old(certs), domains, attempt.cert)
          && certMeta == StoreAll(old(certMeta), domains, attempt.Expiry())
        else certs == old(certs) && certMeta == old(certMeta)
      ensures requested && attempt.Obtained? ==> forall i | 0 <= i < |domains| ::
          && Normalize(domains[i]) in certs && certs[Normalize(domains[i])] == attempt.cert
          && Normalize(domains[i]) in certMeta
          && certMeta[Normalize(domains[i])] == match attempt.notAfter
             case Some(t) => t
             case None => attempt.threeMonthsOn
      ensures r.Fine? ==> forall i | 0 <= i < |domains| :: Lookup(certs, Normalize(domains[i])).Some?
    {
      var needsObtain := false;
      var i := 0;
      while i < |domains|
        modifies {}
        invariant i <= |domains| && !needsObtain
        invariant forall j | 0 <= j < i :: !Due(certMeta, Normalize(domains[j]), now[j], window)
      {
        var d := Normalize(domains[i]);
        if d !in certMeta || certMeta[d] - now[i] < window {
          needsObtain := true;
          break;
        }
        i := i + 1;
      }
      requested := needsObtain;
      if !needsObtain {
        assert forall j | 0 <= j < |domains| :: Normalize(domains[j]) in certMeta.Keys;
        return Fine, requested;
      }
      if !attempt.Obtained? {
        return Failed(attempt), requested;
      }
      StoreBundle(domains, attempt.cert, attempt.Expiry());
      r := Fine;
      StoredEverywhere(old(certs), domains, attempt.cert);
      StoredEverywhere(old(certMeta), domains, attempt.Expiry());
    }

    /** The loop that both obtainCertificate and loadCertificatesFromDisk run under the write lock. */
    method StoreBundle(domains: seq<string>, cert: Certificate, expiry: int)
      requires Valid()
      modifies this
      ensures Valid()
      ensures certs == StoreAll(old(certs), domains, cert)
      ensures certMeta == StoreAll(old(certMeta), domains, expiry)
    {
      var i := 0;
      while i < |domains|
        invariant i <= |domains| && Valid()
        invariant certs == StoreAll(old(certs), domains[..i], cert)
        invariant certMeta == StoreAll(old(certMeta), domains[..i], expiry)
      {
        assert domains[..i + 1][..i] == domains[..i];
        var d := Normalize(domains[i]);
        certs := certs[d := cert];
        certMeta := certMeta[d := expiry];
        i := i + 1;
      }
      assert domains[..i] == domains;
    }

    /** Reading fails only if the directory exists and cannot be listed. */
    method LoadCertificatesFromDisk(dir: Directory) returns (ok: bool)
      requires Valid()
      modifies this
      ensures Valid()
      ensures ok == !dir.Unreadable?
      ensures certs == Loaded(old(certs), EntriesOf(dir), CertOf)
      ensures certMeta == Loaded(old(certMeta), EntriesOf(dir), ExpiryOf)
      ensures LoadedOver(old(certs), EntriesOf(dir), CertOf, certs)
      ensures LoadedOver(old(certMeta), EntriesOf(dir), ExpiryOf, certMeta)
    {
      hide LoadedOver, StoreAll, Unescape;
      LoadedOverAll(certs, EntriesOf(dir), CertOf);
      LoadedOverAll(certMeta, EntriesOf(dir), ExpiryOf);
      if dir.Missing? {
        return true;
      }
      if dir.Unreadable? {
        return false;
      }
      ok := true;
      var files := dir.files;
      var i := 0;
      while i < |files|
        invariant i <= |files| && Valid()
        invariant certs == Loaded(old(certs), files[..i], CertOf)
        invariant certMeta == Loaded(old(certMeta), files[..i], ExpiryOf)
      {
        assert files[..i + 1][..i] == files[..i];
        var file := files[i];
        i := i + 1;
        if !HasSuffix(file.name, CRT) {
          continue;
        }
        var baseName := file.name[..|file.name| - |CRT|];
        if !file.hasKey {
          continue;
        }
        if file.pair.None? {
          continue;
        }
        var pair := file.pair.value;
        var dnsNames := pair.dnsNames;
        if |dnsNames| == 0 {
          dnsNames := [Unescape(baseName)];
        }
        StoreBundle(dnsNames, pair.cert, pair.notAfter);
      }
      assert files[..i] == files;
    }
  }
}
