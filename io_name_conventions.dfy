/** Where the I-metric files, the pair files and the report figures live:
    paths built from the number of classes K and the number of principal
    components `pca`. Creating the folders on disk is not modelled. */
module IoNameConventions {
  import opened Decimal

  const NAME_PREFIX := "../pyxpcm/nc/i-metric-joint-k-"
  const PLOT_PREFIX := "../FBSO-Report/images/i-metric-joint-k-"
  const PAIR_FOLDER_PREFIX := "nc/pair-i-metric-k-"
  const PAIR_NAME_PREFIX := "../pyxpcm/" + PAIR_FOLDER_PREFIX

  /** The common tail of every path: K and pca in decimal around "-d-". */
  function Tag(k: int, pca: int): (t: string)
    ensures |t| > 0
  {
    IntToString(k) + "-d-" + IntToString(pca)
  }

  /** Different (K, pca) settings give different tags: the tag reads back. */
  lemma TagInjective(k: int, pca: int, k2: int, pca2: int)
    requires Tag(k, pca) == Tag(k2, pca2)
    ensures k == k2 && pca == pca2
  {
    JoinedIntsInjective(k, pca, k2, pca2, "-d-");
  }

  /** A path made of a fixed prefix and a tag determines the tag. */
  lemma PrefixedInjective(prefix: string, k: int, pca: int, k2: int, pca2: int)
    requires prefix + Tag(k, pca) == prefix + Tag(k2, pca2)
    ensures k == k2 && pca == pca2
  {
    StripPrefix(prefix, Tag(k, pca), Tag(k2, pca2));
    TagInjective(k, pca, k2, pca2);
  }

  /** `_return_name`: the I-metric file of a (K, pca) run. */
  function ReturnName(k: int, pca: int): (r: string)
    ensures |r| > |NAME_PREFIX| && r[..|NAME_PREFIX|] == NAME_PREFIX
    ensures r[|NAME_PREFIX|..] == Tag(k, pca)
  {
    NAME_PREFIX + Tag(k, pca)
  }

  /** `_return_plot_folder`: the report's figure folder for a run. */
  function ReturnPlotFolder(k: int, pca: int): (r: string)
    ensures |r| > |PLOT_PREFIX| + 1 && r[..|PLOT_PREFIX|] == PLOT_PREFIX
    ensures r[|r| - 1] == '/' && r[|PLOT_PREFIX|..|r| - 1] == Tag(k, pca)
  {
    PLOT_PREFIX + Tag(k, pca) + "/"
  }

  /** `_return_folder`: the I-metric file's name as a folder. */
  function ReturnFolder(k: int, pca: int): (r: string)
    ensures |r| == |ReturnName(k, pca)| + 1 && r[|r| - 1] == '/'
    ensures r[..|r| - 1] == ReturnName(k, pca)
  {
    ReturnName(k, pca) + "/"
  }

  /** `_return_pair_name`: the pair I-metric file of a run. */
  function ReturnPairName(k: int, pca: int): (r: string)
    ensures |r| > |PAIR_NAME_PREFIX| && r[..|PAIR_NAME_PREFIX|] == PAIR_NAME_PREFIX
    ensures r[|PAIR_NAME_PREFIX|..] == Tag(k, pca)
  {
    PAIR_NAME_PREFIX + Tag(k, pca)
  }

  /** `_return_pair_folder`: relative to the working directory, without the
      "../pyxpcm/" the pair file name has. */
  function ReturnPairFolder(k: int, pca: int): (r: string)
    ensures |r| > |PAIR_FOLDER_PREFIX| + 1 && r[..|PAIR_FOLDER_PREFIX|] == PAIR_FOLDER_PREFIX
    ensures r[|r| - 1] == '/' && r[|PAIR_FOLDER_PREFIX|..|r| - 1] == Tag(k, pca)
  {
    PAIR_FOLDER_PREFIX + Tag(k, pca) + "/"
  }

  /** Each path names its run: no two (K, pca) settings share an I-metric
      file, a folder, a pair file, a pair folder or a figure folder. */
  lemma NamesInjective(k: int, pca: int, k2: int, pca2: int)
    ensures ReturnName(k, pca) == ReturnName(k2, pca2) ==> k == k2 && pca == pca2
    ensures ReturnFolder(k, pca) == ReturnFolder(k2, pca2) ==> k == k2 && pca == pca2
    ensures ReturnPairName(k, pca) == ReturnPairName(k2, pca2) ==> k == k2 && pca == pca2
    ensures ReturnPairFolder(k, pca) == ReturnPairFolder(k2, pca2) ==> k == k2 && pca == pca2
    ensures ReturnPlotFolder(k, pca) == ReturnPlotFolder(k2, pca2) ==> k == k2 && pca == pca2
  {
    if ReturnName(k, pca) == ReturnName(k2, pca2) {
      PrefixedInjective(NAME_PREFIX, k, pca, k2, pca2);
    }
    if ReturnFolder(k, pca) == ReturnFolder(k2, pca2) {
      assert ReturnName(k, pca) == ReturnName(k2, pca2);
      PrefixedInjective(NAME_PREFIX, k, pca, k2, pca2);
    }
    if ReturnPairName(k, pca) == ReturnPairName(k2, pca2) {
      PrefixedInjective(PAIR_NAME_PREFIX, k, pca, k2, pca2);
    }
    if ReturnPairFolder(k, pca) == ReturnPairFolder(k2, pca2) {
      SlashedInjective(PAIR_FOLDER_PREFIX, k, pca, k2, pca2);
    }
    if ReturnPlotFolder(k, pca) == ReturnPlotFolder(k2, pca2) {
      SlashedInjective(PLOT_PREFIX, k, pca, k2, pca2);
    }
  }

  /** A folder made of a fixed prefix, a tag and a "/" determines the tag. */
  lemma SlashedInjective(prefix: string, k: int, pca: int, k2: int, pca2: int)
    requires prefix + Tag(k, pca) + "/" == prefix + Tag(k2, pca2) + "/"
    ensures k == k2 && pca == pca2
  {
    var a, b := prefix + Tag(k, pca) + "/", prefix + Tag(k2, pca2) + "/";
    assert a[..|a| - 1] == prefix + Tag(k, pca);
    assert b[..|b| - 1] == prefix + Tag(k2, pca2);
    PrefixedInjective(prefix, k, pca, k2, pca2);
  }

  /** Unlike `_return_folder`, the pair folder is not the pair file's name
      with a "/" appended: the two differ from the first character. */
  lemma PairFolderIsNotPairNameFolder(k: int, pca: int)
    ensures ReturnPairFolder(k, pca) != ReturnPairName(k, pca) + "/"
    ensures ReturnPairFolder(k, pca)[0] == 'n' && ReturnPairName(k, pca)[0] == '.'
  {
    assert ReturnPairFolder(k, pca)[0] == PAIR_FOLDER_PREFIX[0];
    assert ReturnPairName(k, pca)[0] == PAIR_NAME_PREFIX[0];
  }

  /** The single-run files and the pair files never collide, whatever the
      two runs are: they part at "i-metric" against "pair-i-metric". */
  lemma NameNeverPairName(k: int, pca: int, k2: int, pca2: int)
    ensures ReturnName(k, pca) != ReturnPairName(k2, pca2)
  {
    assert ReturnName(k, pca)[13] == NAME_PREFIX[13] == 'i';
    assert ReturnPairName(k2, pca2)[13] == PAIR_NAME_PREFIX[13] == 'p';
  }
}
