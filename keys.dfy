/**
 * The sample store's key vocabulary (src/sampleStore/constants.js): the
 * master-set keys and the key prefixes of records and of the derived
 * index sets, with the facts about them that the maintenance code relies on.
 */
module Keys {
  import opened Text

  // key: the master sets
  const AspectsKey: string := "samsto:aspects"
  const SubjectsKey: string := "samsto:subjects"
  const SamplesKey: string := "samsto:samples"

  // pfx: record prefixes
  const AspectPfx: string := "samsto:aspect:"
  const SamplePfx: string := "samsto:sample:"
  const SubjectPfx: string := "samsto:subject:"
  const SubjectsPfx: string := "samsto:subjects:"
  // pfx.asm: aspect -> subjects index; pfx.sam: subject -> aspects index
  const AspSubMapPfx: string := "samsto:aspsubmap:"
  const SubAspMapPfx: string := "samsto:subaspmap:"
  // pfx: attribute projections
  const SubjectTagsPfx: string := "samsto:subTags:"
  const SubjectExistsPfx: string := "samsto:subExists:"
  const AspectTagsPfx: string := "samsto:aspTags:"
  const AspectWritersPfx: string := "samsto:aspWriters:"
  const AspectRangesPfx: string := "samsto:aspRanges:"
  const AspectExistsPfx: string := "samsto:aspExists:"

  /** A key a `samsto:sample:*` scan can return. */
  predicate IsSampleKey(k: string) {
    StartsWith(SamplePfx, k)
  }

  /** The key of the sample record with the given name. */
  function SampleKey(name: string): (k: string)
    ensures IsSampleKey(k) && k[|SamplePfx|..] == name
  {
    StartsWithSelf(SamplePfx, name);
    SamplePfx + name
  }

  /** The sample record prefix is 14 characters long; `sampleKeyNameMatch` drops that many. */
  lemma SamplePrefixLength()
    ensures |SamplePfx| == 14
  {
  }

  /** The master set is not itself a sample record, so a record scan never visits it. */
  lemma MasterSetIsNotARecord()
    ensures !IsSampleKey(SamplesKey)
  {
    assert SamplesKey[13] != SamplePfx[13];
  }

  /** The two index prefixes are distinct, neither extends the other, and no key has both. */
  lemma IndexPrefixesDisjoint(k: string)
    ensures !StartsWith(SubAspMapPfx, AspSubMapPfx) && !StartsWith(AspSubMapPfx, SubAspMapPfx)
    ensures !(StartsWith(SubAspMapPfx, k) && StartsWith(AspSubMapPfx, k))
  {
    assert |SubAspMapPfx| == |AspSubMapPfx| && SubAspMapPfx[7] != AspSubMapPfx[7];
  }

  /** No index key is a sample record, so index maintenance never touches the records. */
  lemma IndexKeysAreNotRecords(k: string)
    ensures StartsWith(SubAspMapPfx, k) ==> !IsSampleKey(k)
    ensures StartsWith(AspSubMapPfx, k) ==> !IsSampleKey(k)
  {
    assert SubAspMapPfx[8] != SamplePfx[8];
    assert StartsWith(SubAspMapPfx, k) ==> k[8] == k[..|SubAspMapPfx|][8];
  }

  /** Every record and index prefix ends in the separator ':'. */
  lemma PrefixesEndInColon()
    ensures forall p :: p in [AspectPfx, SamplePfx, SubjectPfx, SubjectsPfx, AspSubMapPfx,
                             SubAspMapPfx, SubjectTagsPfx, SubjectExistsPfx, AspectTagsPfx,
                             AspectWritersPfx, AspectRangesPfx, AspectExistsPfx]
                        ==> |p| > 0 && p[|p| - 1] == ':'
  {
  }
}
