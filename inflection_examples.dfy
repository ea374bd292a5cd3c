/** The expectations on `underscore` written out as lemmas. Each identifier
    that the rules handle is shown to be a well-formed run of words, and
    the theorem about word runs gives its inflection; the irregular
    identifiers are looked up in the table. */
module InflectionExamples {
  import opened Inflection

  // ---------------------------------------------------------------------
  // A character-by-character reading of the word grammar, which the
  // verifier evaluates on literal identifiers, and its soundness.

  datatype Kind = Titled | Acronym | Number | Lowercase | Other

  predicate LowerFrom(w: string, i: nat)
    decreases |w| - i
  {
    i >= |w| || (IsLower(w[i]) && LowerFrom(w, i + 1))
  }

  predicate DigitsFrom(w: string, i: nat)
    decreases |w| - i
  {
    i >= |w| || (IsDigit(w[i]) && DigitsFrom(w, i + 1))
  }

  /** w[i..] is capitals followed by digits. */
  predicate CapsThenDigitsFrom(w: string, i: nat)
    decreases |w| - i
  {
    i >= |w| || (IsUpper(w[i]) && CapsThenDigitsFrom(w, i + 1)) || DigitsFrom(w, i)
  }

  function KindOf(w: string): Kind {
    if |w| >= 2 && IsUpper(w[0]) && LowerFrom(w, 1) then Titled
    else if |w| >= 1 && IsUpper(w[0]) && CapsThenDigitsFrom(w, 1) then Acronym
    else if |w| >= 1 && DigitsFrom(w, 0) then Number
    else if |w| >= 1 && LowerFrom(w, 0) then Lowercase
    else Other
  }

  /** The kinds of neighbours that may follow each other. */
  predicate Fits(p: Kind, w: Kind) {
    w == Titled || (w == Acronym && p != Acronym) || (w == Number && (p == Titled || p == Lowercase))
  }

  /** w lower-cases to r, checked character by character from i. */
  predicate LowersFrom(w: string, r: string, i: nat)
    requires |w| == |r|
    decreases |w| - i
  {
    i >= |w| || (Lower(w[i]) == r[i] && LowersFrom(w, r, i + 1))
  }

  lemma {:induction false} LowerFromSound(w: string, i: nat)
    requires LowerFrom(w, i)
    ensures forall j :: i <= j < |w| ==> IsLower(w[j])
    decreases |w| - i
  {
    if i < |w| {
      LowerFromSound(w, i + 1);
    }
  }

  lemma {:induction false} DigitsFromSound(w: string, i: nat)
    requires DigitsFrom(w, i)
    ensures forall j :: i <= j < |w| ==> IsDigit(w[j])
    decreases |w| - i
  {
    if i < |w| {
      DigitsFromSound(w, i + 1);
    }
  }

  lemma {:induction false} CapsThenDigitsFromSound(w: string, i: nat)
    requires CapsThenDigitsFrom(w, i)
    ensures forall j :: i <= j < |w| ==> IsUpper(w[j]) || IsDigit(w[j])
    ensures forall j, k :: i <= j < k < |w| && IsDigit(w[j]) ==> IsDigit(w[k])
    decreases |w| - i
  {
    if DigitsFrom(w, i) {
      DigitsFromSound(w, i);
    } else if i < |w| {
      CapsThenDigitsFromSound(w, i + 1);
    }
  }

  lemma {:induction false} LowersFromSound(w: string, r: string, i: nat)
    requires |w| == |r| && LowersFrom(w, r, i)
    ensures forall j :: i <= j < |w| ==> r[j] == Lower(w[j])
    decreases |w| - i
  {
    if i < |w| {
      LowersFromSound(w, r, i + 1);
    }
  }

  /** The kind computed character by character is the kind of the grammar. */
  lemma KindSound(w: string)
    ensures KindOf(w) == Titled ==> IsTitled(w) && !IsAcronym(w)
    ensures KindOf(w) == Acronym ==> IsAcronym(w)
    ensures KindOf(w) == Number ==> IsNumber(w) && !IsAcronym(w)
    ensures KindOf(w) == Lowercase ==> IsLowerWord(w) && !IsAcronym(w)
  {
    match KindOf(w)
    case Titled =>
      LowerFromSound(w, 1);
      assert IsLower(w[1]);
    case Acronym =>
      CapsThenDigitsFromSound(w, 1);
    case Number =>
      DigitsFromSound(w, 0);
      assert IsDigit(w[0]);
    case Lowercase =>
      LowerFromSound(w, 0);
      assert IsLower(w[0]);
    case Other =>
  }

  lemma WordOfKind(p: string, w: string)
    requires KindOf(p) != Other && KindOf(w) != Other && Fits(KindOf(p), KindOf(w))
    ensures IsWord(p) && IsWord(w) && MayFollow(p, w)
  {
    KindSound(p);
    KindSound(w);
  }

  lemma LoweredTo(w: string, r: string)
    requires |w| == |r| && LowersFrom(w, r, 0)
    ensures LowerAll(w) == r
  {
    LowersFromSound(w, r, 0);
  }

  // Runs of one, two and three words, checked on their characters.

  lemma Run2(a: string, b: string)
    ensures Concat([a, b]) == a + b
    ensures JoinLowered([a, b]) == LowerAll(a) + "_" + LowerAll(b)
    ensures IsWord(a) && IsWord(b) && MayFollow(a, b) ==> IsWordList([a, b])
  {
    assert [a, b][..1] == [a];
    assert Concat([a]) == Concat([]) + a == a;
  }

  lemma Run3(a: string, b: string, c: string)
    ensures Concat([a, b, c]) == a + b + c
    ensures JoinLowered([a, b, c]) == LowerAll(a) + "_" + LowerAll(b) + "_" + LowerAll(c)
    ensures IsWord(a) && IsWord(b) && IsWord(c) && MayFollow(a, b) && MayFollow(b, c) ==> IsWordList([a, b, c])
  {
    assert [a, b, c][..2] == [a, b];
    Run2(a, b);
  }

  lemma Run4(a: string, b: string, c: string, d: string)
    ensures Concat([a, b, c, d]) == a + b + c + d
    ensures JoinLowered([a, b, c, d]) == LowerAll(a) + "_" + LowerAll(b) + "_" + LowerAll(c) + "_" + LowerAll(d)
    ensures IsWord(a) && IsWord(b) && IsWord(c) && IsWord(d) && MayFollow(a, b) && MayFollow(b, c) && MayFollow(c, d)
      ==> IsWordList([a, b, c, d])
  {
    assert [a, b, c, d][..3] == [a, b, c];
    Run3(a, b, c);
  }

  lemma OneWord(a: string, la: string)
    requires KindOf(a) != Other
    requires |a| == |la| && LowersFrom(a, la, 0)
    ensures ByRules(a) == la
  {
    KindSound(a);
    LoweredTo(a, la);
    assert Concat([a]) == Concat([]) + a == a;
    ByRulesOfWords([a]);
  }

  lemma TwoWords(a: string, b: string, la: string, lb: string, s: string, r: string)
    requires KindOf(a) != Other && KindOf(b) != Other && Fits(KindOf(a), KindOf(b))
    requires |a| == |la| && LowersFrom(a, la, 0) && |b| == |lb| && LowersFrom(b, lb, 0)
    requires a + b == s && la + "_" + lb == r
    ensures ByRules(s) == r
  {
    WordOfKind(a, b);
    LoweredTo(a, la);
    LoweredTo(b, lb);
    Run2(a, b);
    ByRulesOfWords([a, b]);
  }

  lemma ThreeWords(a: string, b: string, c: string, la: string, lb: string, lc: string, s: string, r: string)
    requires KindOf(a) != Other && KindOf(b) != Other && KindOf(c) != Other
    requires Fits(KindOf(a), KindOf(b)) && Fits(KindOf(b), KindOf(c))
    requires |a| == |la| && LowersFrom(a, la, 0) && |b| == |lb| && LowersFrom(b, lb, 0)
    requires |c| == |lc| && LowersFrom(c, lc, 0)
    requires a + b + c == s && la + "_" + lb + "_" + lc == r
    ensures ByRules(s) == r
  {
    WordOfKind(a, b);
    WordOfKind(b, c);
    LoweredTo(a, la);
    LoweredTo(b, lb);
    LoweredTo(c, lc);
    Run3(a, b, c);
    ByRulesOfWords([a, b, c]);
  }

  lemma FourWordList(a: string, b: string, c: string, d: string)
    requires KindOf(a) != Other && KindOf(b) != Other && KindOf(c) != Other && KindOf(d) != Other
    requires Fits(KindOf(a), KindOf(b)) && Fits(KindOf(b), KindOf(c)) && Fits(KindOf(c), KindOf(d))
    ensures IsWordList([a, b, c, d])
  {
    WordOfKind(a, b);
    WordOfKind(b, c);
    WordOfKind(c, d);
    Run4(a, b, c, d);
  }

  lemma FourLowered(a: string, b: string, c: string, d: string, la: string, lb: string, lc: string, ld: string)
    requires |a| == |la| && LowersFrom(a, la, 0) && |b| == |lb| && LowersFrom(b, lb, 0)
    requires |c| == |lc| && LowersFrom(c, lc, 0) && |d| == |ld| && LowersFrom(d, ld, 0)
    ensures JoinLowered([a, b, c, d]) == la + "_" + lb + "_" + lc + "_" + ld
  {
    LoweredTo(a, la);
    LoweredTo(b, lb);
    LoweredTo(c, lc);
    LoweredTo(d, ld);
    Run4(a, b, c, d);
  }

  lemma FourWords(a: string, b: string, c: string, d: string, s: string, r: string)
    requires KindOf(a) != Other && KindOf(b) != Other && KindOf(c) != Other && KindOf(d) != Other
    requires Fits(KindOf(a), KindOf(b)) && Fits(KindOf(b), KindOf(c)) && Fits(KindOf(c), KindOf(d))
    requires a + b + c + d == s && JoinLowered([a, b, c, d]) == r
    ensures ByRules(s) == r
  {
    var ws := [a, b, c, d];
    FourWordList(a, b, c, d);
    ByRulesOfWords(ws);
    Run4(a, b, c, d);
    assert Concat(ws) == s;
  }

  // ---------------------------------------------------------------------
  // The rules alone on the identifiers of the expectations: each is a
  // well-formed run of words.

  lemma FooByRules()
    ensures ByRules("Foo") == "foo"
  {
    OneWord("Foo", "foo");
  }

  lemma FooBarYuckByRules()
    ensures ByRules("FooBarYuck") == "foo_bar_yuck"
  {
    ThreeWords("Foo", "Bar", "Yuck", "foo", "bar", "yuck", "FooBarYuck", "foo_bar_yuck");
  }

  lemma AWSByRules()
    ensures ByRules("AWS") == "aws"
  {
    OneWord("AWS", "aws");
  }

  lemma AWSAccountByRules()
    ensures ByRules("AWSAccount") == "aws_account"
  {
    TwoWords("AWS", "Account", "aws", "account", "AWSAccount", "aws_account");
  }

  lemma SimpleDBByRules()
    ensures ByRules("SimpleDB") == "simple_db"
  {
    TwoWords("Simple", "DB", "simple", "db", "SimpleDB", "simple_db");
  }

  lemma MySUPERWordByRules()
    ensures ByRules("MySUPERWord") == "my_super_word"
  {
    ThreeWords("My", "SUPER", "Word", "my", "super", "word", "MySUPERWord", "my_super_word");
  }

  lemma AWSAccountIDByRules()
    ensures ByRules("AWSAccountID") == "aws_account_id"
  {
    ThreeWords("AWS", "Account", "ID", "aws", "account", "id", "AWSAccountID", "aws_account_id");
  }

  lemma MD5OfBodyByRules()
    ensures ByRules("MD5OfBody") == "md5_of_body"
  {
    ThreeWords("MD5", "Of", "Body", "md5", "of", "body", "MD5OfBody", "md5_of_body");
  }

  lemma S3BucketByRules()
    ensures ByRules("S3Bucket") == "s3_bucket"
  {
    TwoWords("S3", "Bucket", "s3", "bucket", "S3Bucket", "s3_bucket");
  }

  lemma EC2InstanceByRules()
    ensures ByRules("EC2Instance") == "ec2_instance"
  {
    TwoWords("EC2", "Instance", "ec2", "instance", "EC2Instance", "ec2_instance");
  }

  lemma TwentyFourMINByRules()
    ensures ByRules("24MIN") == "24_min"
  {
    TwoWords("24", "MIN", "24", "min", "24MIN", "24_min");
  }

  lemma MD5ByRules()
    ensures ByRules("MD5") == "md5"
  {
    OneWord("MD5", "md5");
  }

  // ---------------------------------------------------------------------
  // The irregular inflections, looked up in the table two at a time.

  lemma IrregularInflections1()
    ensures Underscore("ETag") == "etag"
    ensures Underscore("s3Bucket") == "s3_bucket"
  {
  }

  lemma IrregularInflections2()
    ensures Underscore("s3Key") == "s3_key"
    ensures Underscore("Ec2KeyName") == "ec2_key_name"
  {
  }

  lemma IrregularInflections3()
    ensures Underscore("Ec2SubnetId") == "ec2_subnet_id"
    ensures Underscore("Ec2VolumeId") == "ec2_volume_id"
  {
  }

  lemma IrregularInflections4()
    ensures Underscore("Ec2InstanceId") == "ec2_instance_id"
    ensures Underscore("ElastiCache") == "elasticache"
  {
  }

  lemma IrregularInflections5()
    ensures Underscore("NotificationARNs") == "notification_arns"
    ensures Underscore("SentLast24Hours") == "sent_last_24_hours"
  {
  }

  lemma IrregularInflections6()
    ensures Underscore("Max24HourSend") == "max_24_hour_send"
    ensures Underscore("AuthenticationCode1") == "authentication_code_1"
  {
  }

  lemma IrregularInflections7()
    ensures Underscore("AuthenticationCode2") == "authentication_code_2"
    ensures Underscore("SwapEnvironmentCNAMEs") == "swap_environment_cnames"
  {
  }

  lemma IrregularInflections8()
    ensures Underscore("CachediSCSIVolume") == "cached_iscsi_volume"
    ensures Underscore("CachediSCSIVolumeInformation") == "cached_iscsi_volume_information"
  {
  }

  lemma IrregularInflections9()
    ensures Underscore("CachediSCSIVolumes") == "cached_iscsi_volumes"
    ensures Underscore("CreateCachediSCSIVolume") == "create_cached_iscsi_volume"
  {
  }

  lemma IrregularInflections10()
    ensures Underscore("CreateCachediSCSIVolumeInput") == "create_cached_iscsi_volume_input"
    ensures Underscore("CreateCachediSCSIVolumeOutput") == "create_cached_iscsi_volume_output"
  {
  }

  lemma IrregularInflections11()
    ensures Underscore("CreateStorediSCSIVolume") == "create_stored_iscsi_volume"
    ensures Underscore("CreateStorediSCSIVolumeInput") == "create_stored_iscsi_volume_input"
  {
  }

  lemma IrregularInflections12()
    ensures Underscore("CreateStorediSCSIVolumeOutput") == "create_stored_iscsi_volume_output"
    ensures Underscore("DescribeCachediSCSIVolumes") == "describe_cached_iscsi_volumes"
  {
  }

  lemma IrregularInflections13()
    ensures Underscore("DescribeCachediSCSIVolumesInput") == "describe_cached_iscsi_volumes_input"
    ensures Underscore("DescribeCachediSCSIVolumesOutput") == "describe_cached_iscsi_volumes_output"
  {
  }

  lemma IrregularInflections14()
    ensures Underscore("DescribeStorediSCSIVolumes") == "describe_stored_iscsi_volumes"
    ensures Underscore("DescribeStorediSCSIVolumesInput") == "describe_stored_iscsi_volumes_input"
  {
  }

  lemma IrregularInflections15()
    ensures Underscore("DescribeStorediSCSIVolumesOutput") == "describe_stored_iscsi_volumes_output"
    ensures Underscore("DeviceiSCSIAttributes") == "device_iscsi_attributes"
  {
  }

  lemma IrregularInflections16()
    ensures Underscore("StorediSCSIVolume") == "stored_iscsi_volume"
    ensures Underscore("StorediSCSIVolumeInformation") == "stored_iscsi_volume_information"
  {
  }

  lemma IrregularInflections17()
    ensures Underscore("StorediSCSIVolumes") == "stored_iscsi_volumes"
    ensures Underscore("VolumeiSCSIAttributes") == "volume_iscsi_attributes"
  {
  }

  // ---------------------------------------------------------------------
  // The expectations on `underscore`, grouped as in the test file. An
  // identifier outside the table is inflected by the rules.

  lemma DowncasesTitleizedWords()
    ensures Underscore("Foo") == "foo"
  {
    FooByRules();
  }

  lemma BreaksCompoundTitleizedWords()
    ensures Underscore("FooBarYuck") == "foo_bar_yuck"
  {
    FooBarYuckByRules();
  }

  lemma TreatsAcronymsAsOneWord()
    ensures Underscore("AWS") == "aws"
  {
    AWSByRules();
  }

  lemma PreservesLeadingAcronyms()
    ensures Underscore("AWSAccount") == "aws_account"
  {
    AWSAccountByRules();
  }

  lemma PreservesTrailingAcronyms()
    ensures Underscore("SimpleDB") == "simple_db"
  {
    SimpleDBByRules();
  }

  lemma MySUPERWordInflected()
    ensures Underscore("MySUPERWord") == "my_super_word"
  {
    MySUPERWordByRules();
  }

  lemma AWSAccountIDInflected()
    ensures Underscore("AWSAccountID") == "aws_account_id"
  {
    AWSAccountIDByRules();
  }

  lemma MD5OfBodyInflected()
    ensures Underscore("MD5OfBody") == "md5_of_body"
  {
    MD5OfBodyByRules();
  }

  lemma S3BucketInflected()
    ensures Underscore("S3Bucket") == "s3_bucket"
  {
    S3BucketByRules();
  }

  lemma EC2InstanceInflected()
    ensures Underscore("EC2Instance") == "ec2_instance"
  {
    EC2InstanceByRules();
  }

  lemma TwentyFourMINInflected()
    ensures Underscore("24MIN") == "24_min"
  {
    TwentyFourMINByRules();
  }

  lemma MD5Inflected()
    ensures Underscore("MD5") == "md5"
  {
    MD5ByRules();
  }

  lemma PreservesNestedAcronyms()
    ensures Underscore("MySUPERWord") == "my_super_word"
    ensures Underscore("AWSAccountID") == "aws_account_id"
  {
    MySUPERWordInflected();
    AWSAccountIDInflected();
  }

  lemma TrailingNumbersBelongToAcronyms()
    ensures Underscore("MD5OfBody") == "md5_of_body"
    ensures Underscore("S3Bucket") == "s3_bucket"
    ensures Underscore("EC2Instance") == "ec2_instance"
  {
    MD5OfBodyInflected();
    S3BucketInflected();
    EC2InstanceInflected();
  }

  lemma LeadingNumbersAreSeparateWords()
    ensures Underscore("SentLast24Hours") == "sent_last_24_hours"
    ensures Underscore("24MIN") == "24_min"
  {
    IrregularInflections5();
    TwentyFourMINInflected();
  }

  lemma AcceptsLowerCaseStarts()
    ensures Underscore("s3Key") == "s3_key"
    ensures Underscore("s3Bucket") == "s3_bucket"
  {
    IrregularInflections2();
    IrregularInflections1();
  }

  // ---------------------------------------------------------------------
  // The table is needed: on these identifiers the rules alone cut where
  // the expected name does not.

  lemma ETagByRules()
    ensures ByRules("ETag") == "e_tag"
  {
    TwoWords("E", "Tag", "e", "tag", "ETag", "e_tag");
  }

  lemma ElastiCacheByRules()
    ensures ByRules("ElastiCache") == "elasti_cache"
  {
    TwoWords("Elasti", "Cache", "elasti", "cache", "ElastiCache", "elasti_cache");
  }

  lemma NotificationARNsByRules()
    ensures ByRules("NotificationARNs") == "notification_ar_ns"
  {
    ThreeWords("Notification", "AR", "Ns", "notification", "ar", "ns", "NotificationARNs", "notification_ar_ns");
  }

  lemma CachediSCSIVolumeByRules()
    ensures ByRules("CachediSCSIVolume") == "cachedi_scsi_volume"
  {
    ThreeWords("Cachedi", "SCSI", "Volume", "cachedi", "scsi", "volume", "CachediSCSIVolume", "cachedi_scsi_volume");
  }

  /** Rule C cuts a lower-case start off its digit. */
  lemma S3KeyByRules()
    ensures ByRules("s3Key") == "s_3_key"
  {
    ThreeWords("s", "3", "Key", "s", "3", "key", "s3Key", "s_3_key");
  }

  lemma S3BucketLowerByRules()
    ensures ByRules("s3Bucket") == "s_3_bucket"
  {
    ThreeWords("s", "3", "Bucket", "s", "3", "bucket", "s3Bucket", "s_3_bucket");
  }

  /** Rule C cuts the digit off a capitalised word. */
  lemma Ec2KeyNameByRules()
    ensures ByRules("Ec2KeyName") == "ec_2_key_name"
  {
    FourLowered("Ec", "2", "Key", "Name", "ec", "2", "key", "name");
    FourWords("Ec", "2", "Key", "Name", "Ec2KeyName", "ec_2_key_name");
  }

  lemma TableOverridesRules()
    ensures Underscore("s3Bucket") != ByRules("s3Bucket")
    ensures Underscore("s3Key") != ByRules("s3Key")
    ensures Underscore("Ec2KeyName") != ByRules("Ec2KeyName")
    ensures Underscore("ETag") != ByRules("ETag")
    ensures Underscore("ElastiCache") != ByRules("ElastiCache")
    ensures Underscore("NotificationARNs") != ByRules("NotificationARNs")
    ensures Underscore("CachediSCSIVolume") != ByRules("CachediSCSIVolume")
  {
    S3BucketLowerByRules();
    S3KeyByRules();
    Ec2KeyNameByRules();
    ETagByRules();
    ElastiCacheByRules();
    NotificationARNsByRules();
    CachediSCSIVolumeByRules();
    IrregularInflections1();
    IrregularInflections2();
    IrregularInflections4();
    IrregularInflections5();
    IrregularInflections8();
  }

  // ---------------------------------------------------------------------
  // `underscore` is not idempotent: the digit rule cuts again inside an
  // already inflected acronym.

  /** The rules on an inflected name: the digit after a lower-case letter
      is cut off. */
  lemma InflectedAcronymCutAgain()
    ensures ByRules("md5") == "md_5"
  {
    var s := "md5";
    var cut := Cuts(s);
    assert !cut[1] && cut[2];
    SeparateWord(s, cut, 0, 2);
    SeparateWord(s, cut, 2, 3);
    assert LowerAll(s[0..2]) == "md";
    assert LowerAll(s[2..3]) == "5";
    assert s[..|s|] == s;
  }

  lemma NotIdempotent()
    ensures Underscore("MD5") == "md5"
    ensures Underscore(Underscore("MD5")) == "md_5"
  {
    MD5Inflected();
    InflectedAcronymCutAgain();
  }
}
