/** The channel-metadata lookup, find_channels_meta: the acquisition folder holds a YAML file that
    maps channel keys to channel names. One version reads a file named by the caller, the other
    globs for the one *.yml / *.yaml file of the folder. The folder is given by the names of its
    entries, in the order the directory listing returns them; reading a YAML file is a reader
    function passed in. */
module ChannelsMeta {
  import opened Results
  import opened Text

  /** The YAML mapping, in document order (a dict keeps insertion order). */
  type ChannelMap = seq<(string, string)>

  /** yaml.load on the named file; None where it fails or does not give a mapping of strings. */
  type YamlReader = string -> Option<ChannelMap>

  /** list(channel_dict.values()): the channel names in document order. */
  function ChannelNames(channels: ChannelMap): (names: seq<string>)
    ensures |names| == |channels| && forall i :: 0 <= i < |channels| ==> names[i] == channels[i].1
  {
    seq(|channels|, i requires 0 <= i < |channels| => channels[i].1)
  }

  function ReadChannels(path: string, read: YamlReader): Result<ChannelMap> {
    match read(path)
    case None => Err(YamlUnreadable(path))
    case Some(channels) => Ok(channels)
  }

  // ---------------------------------------------------------------------------------------------
  // The named-file version.

  /** find_channels_meta(acquisition_path, yaml_name): the named file must exist; then it is read.
      A missing file is reported as missing, whatever the reader would do; a present one gives
      exactly what the reader makes of it. */
  function ChannelsMetaNamed(listing: seq<string>, yamlName: string, read: YamlReader): (r: Result<ChannelMap>)
    ensures r == Err(ChannelYamlMissing(yamlName)) <==> yamlName !in listing
    ensures r.Ok? <==> yamlName in listing && read(yamlName).Some?
    ensures r.Ok? ==> read(yamlName) == Some(r.value)
  {
    if yamlName !in listing then Err(ChannelYamlMissing(yamlName))
    else ReadChannels(yamlName, read)
  }

  // ---------------------------------------------------------------------------------------------
  // The glob version.

  /** A name the pattern *.yml or *.yaml matches. */
  predicate IsYamlName(s: string) {
    EndsWith(s, ".yml") || EndsWith(s, ".yaml")
  }

  /** glob("*.yml") + glob("*.yaml"). */
  function YamlCandidates(listing: seq<string>): seq<string> {
    Matching(listing, ".yml") + Matching(listing, ".yaml")
  }

  /** The number of entries of the listing that are YAML files. */
  function YamlCount(listing: seq<string>): nat
    decreases |listing|
  {
    if listing == [] then 0
    else (if IsYamlName(listing[0]) then 1 else 0) + YamlCount(listing[1..])
  }

  /** find_channels_meta(acquisition_path): exactly one YAML file must be found; then it is
      read. No YAML entry in the folder gives the not-found error, several give the
      multiple-files error. */
  function ChannelsMetaGlob(listing: seq<string>, read: YamlReader): (r: Result<ChannelMap>)
    ensures r == Err(NoChannelYaml) <==> YamlCount(listing) == 0
    ensures r == Err(MultipleChannelYaml) <==> YamlCount(listing) > 1
  {
    CandidatesCount(listing);
    var found := YamlCandidates(listing);
    if |found| == 0 then Err(NoChannelYaml)
    else if |found| > 1 then Err(MultipleChannelYaml)
    else ReadChannels(found[0], read)
  }

  /** No name ends in both ".yml" and ".yaml", so the two globs never find the same file. */
  lemma SuffixesExclusive(s: string)
    ensures !(EndsWith(s, ".yml") && EndsWith(s, ".yaml"))
  {
    if EndsWith(s, ".yml") && |s| >= 5 {
      assert s[|s| - 4] == s[|s| - 4..][0] == '.';
      assert s[|s| - 5..][1] == s[|s| - 4];
    }
  }

  /** The two globs together find every YAML entry of the listing once. */
  lemma {:induction false} CandidatesCount(listing: seq<string>)
    ensures |YamlCandidates(listing)| == YamlCount(listing)
    decreases |listing|
  {
    if listing != [] {
      CandidatesCount(listing[1..]);
      SuffixesExclusive(listing[0]);
    }
  }

  /** With exactly one YAML entry in the folder, the glob version reads that entry. */
  lemma ChannelsMetaGlobMeaning(listing: seq<string>, read: YamlReader)
    ensures YamlCount(listing) == 1 ==>
              exists f :: f in listing && IsYamlName(f) &&
                (forall i :: 0 <= i < |listing| && IsYamlName(listing[i]) ==> listing[i] == f) &&
                ChannelsMetaGlob(listing, read) == ReadChannels(f, read)
  {
    CandidatesCount(listing);
    if YamlCount(listing) == 1 {
      var f := YamlCandidates(listing)[0];
      assert YamlCandidates(listing) == [f];
      MatchingMembers(listing, ".yml", f);
      MatchingMembers(listing, ".yaml", f);
      assert f in Matching(listing, ".yml") || f in Matching(listing, ".yaml");
      forall i | 0 <= i < |listing| && IsYamlName(listing[i]) ensures listing[i] == f {
        MatchingMembers(listing, ".yml", listing[i]);
        MatchingMembers(listing, ".yaml", listing[i]);
        assert listing[i] in YamlCandidates(listing);
      }
    }
  }

  /** When the named file is the folder's only YAML file, the two versions agree. */
  lemma ChannelsMetaVersionsAgree(listing: seq<string>, yamlName: string, read: YamlReader)
    requires yamlName in listing && IsYamlName(yamlName) && YamlCount(listing) == 1
    ensures ChannelsMetaNamed(listing, yamlName, read) == ChannelsMetaGlob(listing, read)
  {
    ChannelsMetaGlobMeaning(listing, read);
    var f :| f in listing && IsYamlName(f) &&
             (forall i :: 0 <= i < |listing| && IsYamlName(listing[i]) ==> listing[i] == f) &&
             ChannelsMetaGlob(listing, read) == ReadChannels(f, read);
    var j :| 0 <= j < |listing| && listing[j] == yamlName;
    assert yamlName == f;
  }
}
