// The digit strings of the integer test vectors and their values, one
// lemma per string: each unfolds the left-to-right digit fold one step at
// a time.
module IntegerLiterals {
  import opened Digits

  lemma Digits1(d: string)
    requires d == "1"
    ensures AllDigits(d) && DecimalValue(d) == 1
  {
  }

  lemma Digits10(d: string)
    requires d == "10"
    ensures AllDigits(d) && DecimalValue(d) == 10
  {
    assert LeadingValue(d, 1) == 1;
  }

  lemma Digits24(d: string)
    requires d == "24"
    ensures AllDigits(d) && DecimalValue(d) == 24
  {
    assert LeadingValue(d, 1) == 2;
  }

  lemma Digits67(d: string)
    requires d == "67"
    ensures AllDigits(d) && DecimalValue(d) == 67
  {
    assert LeadingValue(d, 1) == 6;
  }

  lemma Digits123(d: string)
    requires d == "123"
    ensures AllDigits(d) && DecimalValue(d) == 123
  {
    assert LeadingValue(d, 1) == 1;
    assert LeadingValue(d, 2) == 12;
  }

  lemma Digits127(d: string)
    requires d == "127"
    ensures AllDigits(d) && DecimalValue(d) == 127
  {
    assert LeadingValue(d, 1) == 1;
    assert LeadingValue(d, 2) == 12;
  }

  lemma Digits128(d: string)
    requires d == "128"
    ensures AllDigits(d) && DecimalValue(d) == 128
  {
    assert LeadingValue(d, 1) == 1;
    assert LeadingValue(d, 2) == 12;
  }

  lemma Digits129(d: string)
    requires d == "129"
    ensures AllDigits(d) && DecimalValue(d) == 129
  {
    assert LeadingValue(d, 1) == 1;
    assert LeadingValue(d, 2) == 12;
  }

  lemma Digits255(d: string)
    requires d == "255"
    ensures AllDigits(d) && DecimalValue(d) == 255
  {
    assert LeadingValue(d, 1) == 2;
    assert LeadingValue(d, 2) == 25;
  }

  lemma Digits256(d: string)
    requires d == "256"
    ensures AllDigits(d) && DecimalValue(d) == 256
  {
    assert LeadingValue(d, 1) == 2;
    assert LeadingValue(d, 2) == 25;
  }

  lemma Digits1000(d: string)
    requires d == "1000"
    ensures AllDigits(d) && DecimalValue(d) == 1000
  {
    assert LeadingValue(d, 1) == 1;
    assert LeadingValue(d, 2) == 10;
    assert LeadingValue(d, 3) == 100;
  }

  lemma Digits2468(d: string)
    requires d == "2468"
    ensures AllDigits(d) && DecimalValue(d) == 2468
  {
    assert LeadingValue(d, 1) == 2;
    assert LeadingValue(d, 2) == 24;
    assert LeadingValue(d, 3) == 246;
  }

  lemma Digits6321(d: string)
    requires d == "6321"
    ensures AllDigits(d) && DecimalValue(d) == 6321
  {
    assert LeadingValue(d, 1) == 6;
    assert LeadingValue(d, 2) == 63;
    assert LeadingValue(d, 3) == 632;
  }

  lemma Digits6789(d: string)
    requires d == "6789"
    ensures AllDigits(d) && DecimalValue(d) == 6789
  {
    assert LeadingValue(d, 1) == 6;
    assert LeadingValue(d, 2) == 67;
    assert LeadingValue(d, 3) == 678;
  }

  lemma Digits9223(d: string)
    requires d == "9223"
    ensures AllDigits(d) && DecimalValue(d) == 9223
  {
    assert LeadingValue(d, 1) == 9;
    assert LeadingValue(d, 2) == 92;
    assert LeadingValue(d, 3) == 922;
  }

  lemma Digits18446(d: string)
    requires d == "18446"
    ensures AllDigits(d) && DecimalValue(d) == 18446
  {
    assert LeadingValue(d, 1) == 1;
    assert LeadingValue(d, 2) == 18;
    assert LeadingValue(d, 3) == 184;
    assert LeadingValue(d, 4) == 1844;
  }

  lemma Digits21474(d: string)
    requires d == "21474"
    ensures AllDigits(d) && DecimalValue(d) == 21474
  {
    assert LeadingValue(d, 1) == 2;
    assert LeadingValue(d, 2) == 21;
    assert LeadingValue(d, 3) == 214;
    assert LeadingValue(d, 4) == 2147;
  }

  lemma Digits32767(d: string)
    requires d == "32767"
    ensures AllDigits(d) && DecimalValue(d) == 32767
  {
    assert LeadingValue(d, 1) == 3;
    assert LeadingValue(d, 2) == 32;
    assert LeadingValue(d, 3) == 327;
    assert LeadingValue(d, 4) == 3276;
  }

  lemma Digits32768(d: string)
    requires d == "32768"
    ensures AllDigits(d) && DecimalValue(d) == 32768
  {
    assert LeadingValue(d, 1) == 3;
    assert LeadingValue(d, 2) == 32;
    assert LeadingValue(d, 3) == 327;
    assert LeadingValue(d, 4) == 3276;
  }

  lemma Digits32769(d: string)
    requires d == "32769"
    ensures AllDigits(d) && DecimalValue(d) == 32769
  {
    assert LeadingValue(d, 1) == 3;
    assert LeadingValue(d, 2) == 32;
    assert LeadingValue(d, 3) == 327;
    assert LeadingValue(d, 4) == 3276;
  }

  lemma Digits37095(d: string)
    requires d == "37095"
    ensures AllDigits(d) && DecimalValue(d) == 37095
  {
    assert LeadingValue(d, 1) == 3;
    assert LeadingValue(d, 2) == 37;
    assert LeadingValue(d, 3) == 370;
    assert LeadingValue(d, 4) == 3709;
  }

  lemma Digits37203(d: string)
    requires d == "37203"
    ensures AllDigits(d) && DecimalValue(d) == 37203
  {
    assert LeadingValue(d, 1) == 3;
    assert LeadingValue(d, 2) == 37;
    assert LeadingValue(d, 3) == 372;
    assert LeadingValue(d, 4) == 3720;
  }

  lemma Digits42949(d: string)
    requires d == "42949"
    ensures AllDigits(d) && DecimalValue(d) == 42949
  {
    assert LeadingValue(d, 1) == 4;
    assert LeadingValue(d, 2) == 42;
    assert LeadingValue(d, 3) == 429;
    assert LeadingValue(d, 4) == 4294;
  }

  lemma Digits51615(d: string)
    requires d == "51615"
    ensures AllDigits(d) && DecimalValue(d) == 51615
  {
    assert LeadingValue(d, 1) == 5;
    assert LeadingValue(d, 2) == 51;
    assert LeadingValue(d, 3) == 516;
    assert LeadingValue(d, 4) == 5161;
  }

  lemma Digits51616(d: string)
    requires d == "51616"
    ensures AllDigits(d) && DecimalValue(d) == 51616
  {
    assert LeadingValue(d, 1) == 5;
    assert LeadingValue(d, 2) == 51;
    assert LeadingValue(d, 3) == 516;
    assert LeadingValue(d, 4) == 5161;
  }

  lemma Digits65535(d: string)
    requires d == "65535"
    ensures AllDigits(d) && DecimalValue(d) == 65535
  {
    assert LeadingValue(d, 1) == 6;
    assert LeadingValue(d, 2) == 65;
    assert LeadingValue(d, 3) == 655;
    assert LeadingValue(d, 4) == 6553;
  }

  lemma Digits65536(d: string)
    requires d == "65536"
    ensures AllDigits(d) && DecimalValue(d) == 65536
  {
    assert LeadingValue(d, 1) == 6;
    assert LeadingValue(d, 2) == 65;
    assert LeadingValue(d, 3) == 655;
    assert LeadingValue(d, 4) == 6553;
  }

  lemma Digits67295(d: string)
    requires d == "67295"
    ensures AllDigits(d) && DecimalValue(d) == 67295
  {
    assert LeadingValue(d, 1) == 6;
    assert LeadingValue(d, 2) == 67;
    assert LeadingValue(d, 3) == 672;
    assert LeadingValue(d, 4) == 6729;
  }

  lemma Digits67296(d: string)
    requires d == "67296"
    ensures AllDigits(d) && DecimalValue(d) == 67296
  {
    assert LeadingValue(d, 1) == 6;
    assert LeadingValue(d, 2) == 67;
    assert LeadingValue(d, 3) == 672;
    assert LeadingValue(d, 4) == 6729;
  }

  lemma Digits68547(d: string)
    requires d == "68547"
    ensures AllDigits(d) && DecimalValue(d) == 68547
  {
    assert LeadingValue(d, 1) == 6;
    assert LeadingValue(d, 2) == 68;
    assert LeadingValue(d, 3) == 685;
    assert LeadingValue(d, 4) == 6854;
  }

  lemma Digits74407(d: string)
    requires d == "74407"
    ensures AllDigits(d) && DecimalValue(d) == 74407
  {
    assert LeadingValue(d, 1) == 7;
    assert LeadingValue(d, 2) == 74;
    assert LeadingValue(d, 3) == 744;
    assert LeadingValue(d, 4) == 7440;
  }

  lemma Digits75807(d: string)
    requires d == "75807"
    ensures AllDigits(d) && DecimalValue(d) == 75807
  {
    assert LeadingValue(d, 1) == 7;
    assert LeadingValue(d, 2) == 75;
    assert LeadingValue(d, 3) == 758;
    assert LeadingValue(d, 4) == 7580;
  }

  lemma Digits75808(d: string)
    requires d == "75808"
    ensures AllDigits(d) && DecimalValue(d) == 75808
  {
    assert LeadingValue(d, 1) == 7;
    assert LeadingValue(d, 2) == 75;
    assert LeadingValue(d, 3) == 758;
    assert LeadingValue(d, 4) == 7580;
  }

  lemma Digits75809(d: string)
    requires d == "75809"
    ensures AllDigits(d) && DecimalValue(d) == 75809
  {
    assert LeadingValue(d, 1) == 7;
    assert LeadingValue(d, 2) == 75;
    assert LeadingValue(d, 3) == 758;
    assert LeadingValue(d, 4) == 7580;
  }

  lemma Digits83647(d: string)
    requires d == "83647"
    ensures AllDigits(d) && DecimalValue(d) == 83647
  {
    assert LeadingValue(d, 1) == 8;
    assert LeadingValue(d, 2) == 83;
    assert LeadingValue(d, 3) == 836;
    assert LeadingValue(d, 4) == 8364;
  }

  lemma Digits83648(d: string)
    requires d == "83648"
    ensures AllDigits(d) && DecimalValue(d) == 83648
  {
    assert LeadingValue(d, 1) == 8;
    assert LeadingValue(d, 2) == 83;
    assert LeadingValue(d, 3) == 836;
    assert LeadingValue(d, 4) == 8364;
  }

  lemma Digits83649(d: string)
    requires d == "83649"
    ensures AllDigits(d) && DecimalValue(d) == 83649
  {
    assert LeadingValue(d, 1) == 8;
    assert LeadingValue(d, 2) == 83;
    assert LeadingValue(d, 3) == 836;
    assert LeadingValue(d, 4) == 8364;
  }

  lemma Digits922337203(d: string)
    requires d == "922337203"
    ensures AllDigits(d) && DecimalValue(d) == 922337203
  {
    var a, b := d[..4], d[4..];
    assert a == "9223" && b == "37203";
    Digits9223(a);
    Digits37203(b);
    DecimalValueAppend(a, b);
    assert Pow10(5) == 100000;
    assert a + b == d;
  }

  lemma Digits1844674407(d: string)
    requires d == "1844674407"
    ensures AllDigits(d) && DecimalValue(d) == 1844674407
  {
    var a, b := d[..5], d[5..];
    assert a == "18446" && b == "74407";
    Digits18446(a);
    Digits74407(b);
    DecimalValueAppend(a, b);
    assert Pow10(5) == 100000;
    assert a + b == d;
  }

  lemma Digits2147483647(d: string)
    requires d == "2147483647"
    ensures AllDigits(d) && DecimalValue(d) == 2147483647
  {
    var a, b := d[..5], d[5..];
    assert a == "21474" && b == "83647";
    Digits21474(a);
    Digits83647(b);
    DecimalValueAppend(a, b);
    assert Pow10(5) == 100000;
    assert a + b == d;
  }

  lemma Digits2147483648(d: string)
    requires d == "2147483648"
    ensures AllDigits(d) && DecimalValue(d) == 2147483648
  {
    var a, b := d[..5], d[5..];
    assert a == "21474" && b == "83648";
    Digits21474(a);
    Digits83648(b);
    DecimalValueAppend(a, b);
    assert Pow10(5) == 100000;
    assert a + b == d;
  }

  lemma Digits2147483649(d: string)
    requires d == "2147483649"
    ensures AllDigits(d) && DecimalValue(d) == 2147483649
  {
    var a, b := d[..5], d[5..];
    assert a == "21474" && b == "83649";
    Digits21474(a);
    Digits83649(b);
    DecimalValueAppend(a, b);
    assert Pow10(5) == 100000;
    assert a + b == d;
  }

  lemma Digits3709551615(d: string)
    requires d == "3709551615"
    ensures AllDigits(d) && DecimalValue(d) == 3709551615
  {
    var a, b := d[..5], d[5..];
    assert a == "37095" && b == "51615";
    Digits37095(a);
    Digits51615(b);
    DecimalValueAppend(a, b);
    assert Pow10(5) == 100000;
    assert a + b == d;
  }

  lemma Digits3709551616(d: string)
    requires d == "3709551616"
    ensures AllDigits(d) && DecimalValue(d) == 3709551616
  {
    var a, b := d[..5], d[5..];
    assert a == "37095" && b == "51616";
    Digits37095(a);
    Digits51616(b);
    DecimalValueAppend(a, b);
    assert Pow10(5) == 100000;
    assert a + b == d;
  }

  lemma Digits4294967295(d: string)
    requires d == "4294967295"
    ensures AllDigits(d) && DecimalValue(d) == 4294967295
  {
    var a, b := d[..5], d[5..];
    assert a == "42949" && b == "67295";
    Digits42949(a);
    Digits67295(b);
    DecimalValueAppend(a, b);
    assert Pow10(5) == 100000;
    assert a + b == d;
  }

  lemma Digits4294967296(d: string)
    requires d == "4294967296"
    ensures AllDigits(d) && DecimalValue(d) == 4294967296
  {
    var a, b := d[..5], d[5..];
    assert a == "42949" && b == "67296";
    Digits42949(a);
    Digits67296(b);
    DecimalValueAppend(a, b);
    assert Pow10(5) == 100000;
    assert a + b == d;
  }

  lemma Digits6854775807(d: string)
    requires d == "6854775807"
    ensures AllDigits(d) && DecimalValue(d) == 6854775807
  {
    var a, b := d[..5], d[5..];
    assert a == "68547" && b == "75807";
    Digits68547(a);
    Digits75807(b);
    DecimalValueAppend(a, b);
    assert Pow10(5) == 100000;
    assert a + b == d;
  }

  lemma Digits6854775808(d: string)
    requires d == "6854775808"
    ensures AllDigits(d) && DecimalValue(d) == 6854775808
  {
    var a, b := d[..5], d[5..];
    assert a == "68547" && b == "75808";
    Digits68547(a);
    Digits75808(b);
    DecimalValueAppend(a, b);
    assert Pow10(5) == 100000;
    assert a + b == d;
  }

  lemma Digits6854775809(d: string)
    requires d == "6854775809"
    ensures AllDigits(d) && DecimalValue(d) == 6854775809
  {
    var a, b := d[..5], d[5..];
    assert a == "68547" && b == "75809";
    Digits68547(a);
    Digits75809(b);
    DecimalValueAppend(a, b);
    assert Pow10(5) == 100000;
    assert a + b == d;
  }

  lemma Digits9223372036854775807(d: string)
    requires d == "9223372036854775807"
    ensures AllDigits(d) && DecimalValue(d) == 9223372036854775807
  {
    var a, b := d[..9], d[9..];
    assert a == "922337203" && b == "6854775807";
    Digits922337203(a);
    Digits6854775807(b);
    DecimalValueAppend(a, b);
    assert Pow10(10) == 10000000000;
    assert a + b == d;
  }

  lemma Digits9223372036854775808(d: string)
    requires d == "9223372036854775808"
    ensures AllDigits(d) && DecimalValue(d) == 9223372036854775808
  {
    var a, b := d[..9], d[9..];
    assert a == "922337203" && b == "6854775808";
    Digits922337203(a);
    Digits6854775808(b);
    DecimalValueAppend(a, b);
    assert Pow10(10) == 10000000000;
    assert a + b == d;
  }

  lemma Digits9223372036854775809(d: string)
    requires d == "9223372036854775809"
    ensures AllDigits(d) && DecimalValue(d) == 9223372036854775809
  {
    var a, b := d[..9], d[9..];
    assert a == "922337203" && b == "6854775809";
    Digits922337203(a);
    Digits6854775809(b);
    DecimalValueAppend(a, b);
    assert Pow10(10) == 10000000000;
    assert a + b == d;
  }

  lemma Digits18446744073709551615(d: string)
    requires d == "18446744073709551615"
    ensures AllDigits(d) && DecimalValue(d) == 18446744073709551615
  {
    var a, b := d[..10], d[10..];
    assert a == "1844674407" && b == "3709551615";
    Digits1844674407(a);
    Digits3709551615(b);
    DecimalValueAppend(a, b);
    assert Pow10(10) == 10000000000;
    assert a + b == d;
  }

  lemma Digits18446744073709551616(d: string)
    requires d == "18446744073709551616"
    ensures AllDigits(d) && DecimalValue(d) == 18446744073709551616
  {
    var a, b := d[..10], d[10..];
    assert a == "1844674407" && b == "3709551616";
    Digits1844674407(a);
    Digits3709551616(b);
    DecimalValueAppend(a, b);
    assert Pow10(10) == 10000000000;
    assert a + b == d;
  }
}
