/**
 * The file name the CSV export suggests for a category: `crawl_data_`, the
 * category path without its outer slashes and with every inner '/' turned
 * into '_', then `.csv`.
 */
module Export {
  import opened Text

  const FilenamePrefix := "crawl_data_"
  const FilenameSuffix := ".csv"

  /** The suggested file name for the records of a category. */
  function SuggestedFilename(category: string): (name: string)
    ensures '/' !in name
    ensures StartsWith(name, FilenamePrefix) && EndsWith(name, FilenameSuffix)
    ensures |name| == |FilenamePrefix| + |Strip(category, {'/'})| + |FilenameSuffix|
  {
    var clean := ReplaceChar(Strip(category, {'/'}), '/', '_');
    ReplaceCharRemoves(Strip(category, {'/'}), '/', '_');
    AffixesHaveNoSlash();
    JoinFacts(FilenamePrefix, clean, FilenameSuffix);
    FilenamePrefix + clean + FilenameSuffix
  }

  lemma AffixesHaveNoSlash()
    ensures '/' !in FilenamePrefix && '/' !in FilenameSuffix
  {
  }

  lemma JoinFacts(a: string, b: string, c: string)
    ensures StartsWith(a + b + c, a) && EndsWith(a + b + c, c)
    ensures '/' !in a && '/' !in b && '/' !in c ==> '/' !in a + b + c
  {
    assert (a + b + c)[..|a|] == a;
    assert (a + b + c)[|a + b + c| - |c|..] == c;
  }

  /** The category path a suggested file name stands for, reading every '_' back as '/'. */
  function CategoryOfFilename(name: string): string
    requires |name| >= |FilenamePrefix| + |FilenameSuffix|
  {
    "/" + ReplaceChar(name[|FilenamePrefix|..|name| - |FilenameSuffix|], '_', '/')
  }

  /** A category path with one leading '/', no trailing '/' and no '_' is recovered
      from its suggested file name: distinct such categories get distinct names. */
  lemma FilenameRoundTrip(category: string)
    requires |category| >= 2 && category[0] == '/' && category[1] != '/'
    requires category[|category| - 1] != '/'
    requires '_' !in category
    ensures CategoryOfFilename(SuggestedFilename(category)) == category
  {
    var inner := category[1..];
    assert RStrip(category, {'/'}) == category;
    assert LStrip(inner, {'/'}) == inner;
    assert Strip(category, {'/'}) == inner;
    assert '_' !in inner by {
      forall i | 0 <= i < |inner| ensures inner[i] != '_' {
        assert inner[i] == category[i + 1];
      }
    }
    ReplaceCharRoundTrip(inner, '/', '_');
    var name := SuggestedFilename(category);
    assert name[|FilenamePrefix|..|name| - |FilenameSuffix|] == ReplaceChar(inner, '/', '_');
    assert category == "/" + inner;
  }

  /** A one-segment category `/x` suggests `crawl_data_x.csv`. */
  lemma OneSegmentFilename(segment: string)
    requires segment != [] && '/' !in segment
    ensures SuggestedFilename("/" + segment) == FilenamePrefix + segment + FilenameSuffix
  {
    var category := "/" + segment;
    assert category[|category| - 1] == segment[|segment| - 1];
    assert RStrip(category, {'/'}) == category;
    assert category[1..] == segment;
    assert LStrip(segment, {'/'}) == segment;
    assert Strip(category, {'/'}) == segment;
    forall i | 0 <= i < |segment| ensures ReplaceChar(segment, '/', '_')[i] == segment[i] {
      assert segment[i] in segment;
    }
  }
}
