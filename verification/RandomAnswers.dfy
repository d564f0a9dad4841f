/**
  The recurrence and the tempering bit by bit, and what comes out for the seed
  5489, the default of the reference implementation of MT19937.
 */
module RandomAnswers {
  import opened Words
  import opened Random

  // Bits, the lowest one first.

  type Place = bv5

  function Bit(x: Word, i: Place): Word {
    (x >> i) & 1
  }

  /** The upper bit of one word and the 31 lower bits of another. */
  function Joined(upper: Word, lower: Word, i: Place): Word {
    if i == 31 then Bit(upper, 31) else Bit(lower, i)
  }

  /** The joined word is shifted down by one bit, and an odd one is mixed with 0x9908b0df. */
  lemma TwistBits(upper: Word, lower: Word, i: Place)
    ensures Bit(Twist(upper, lower), i) ==
            (if i == 31 then 0 else Joined(upper, lower, i + 1)) ^
            (if Joined(upper, lower, 0) == 1 then Bit(0x9908_b0df, i) else 0)
  {
  }

  lemma XorBits(a: Word, b: Word, i: Place)
    ensures Bit(Xor(a, b), i) == Bit(a, i) ^ Bit(b, i)
  {
  }

  /** The first copy that tempering mixes in is shifted down by 11 bits. */
  lemma Copy11(y: Word, i: Place)
    ensures i < 21 ==> Bit(S11(y), i) == Bit(y, i + 11)
  {
  }

  lemma Copy11Ends(y: Word, i: Place)
    ensures i >= 21 ==> Bit(S11(y), i) == 0
  {
  }

  /** The second up by 7 and masked. */
  lemma Copy7(y: Word, i: Place)
    ensures Bit(S7(y), i) == Bit(y << 7, i) & Bit(0x9d2c_5680, i)
  {
  }

  lemma Copy7Shift(y: Word, i: Place)
    ensures i >= 7 ==> Bit(y << 7, i) == Bit(y, i - 7)
  {
  }

  lemma Copy7Begins(y: Word, i: Place)
    ensures i < 7 ==> Bit(y << 7, i) == 0
  {
  }

  /** The third up by 15 and masked. */
  lemma Copy15(y: Word, i: Place)
    ensures Bit(S15(y), i) == Bit(y << 15, i) & Bit(0xefc6_0000, i)
  {
  }

  lemma Copy15Shift(y: Word, i: Place)
    ensures i >= 15 ==> Bit(y << 15, i) == Bit(y, i - 15)
  {
  }

  lemma Copy15Begins(y: Word, i: Place)
    ensures i < 15 ==> Bit(y << 15, i) == 0
  {
  }

  /** The last down by 18. */
  lemma Copy18(y: Word, i: Place)
    ensures i < 14 ==> Bit(S18(y), i) == Bit(y, i + 18)
  {
  }

  lemma Copy18Ends(y: Word, i: Place)
    ensures i >= 14 ==> Bit(S18(y), i) == 0
  {
  }

  /** Seeding multiplies and adds modulo 2 to the 32, after mixing a word with its two upper bits. */
  lemma SeedStepIs(prev: Word, i: nat)
    requires i < N
    ensures Value(SeedStep(prev, i)) == (1812433253 * Value(FoldTop(prev)) + i) % 0x1_0000_0000
  {
    WordIs((1812433253 * Value(FoldTop(prev)) + i) % WORDS);
    hide Value;
  }

  /** The two upper bits of the word are mixed into the two lower ones. */
  lemma FoldBits(x: Word, i: Place)
    ensures i < 2 ==> Bit(FoldTop(x), i) == Bit(x, i) ^ Bit(x, i + 30)
  {
    XorBits(x, x >> 30, i);
  }

  lemma FoldKeeps(x: Word, i: Place)
    ensures i >= 2 ==> Bit(FoldTop(x), i) == Bit(x, i)
  {
    XorBits(x, x >> 30, i);
  }

  // The first outputs for the seed 5489.

  lemma Next(n: nat, w: Word, next: Word)
    requires n + 1 < N && Term(5489, n) == w && Value(next) == (1812433253 * Value(FoldTop(w)) + n + 1) % WORDS
    ensures Term(5489, n + 1) == next
  {
    ThereAndBack(next);
    hide Value;
  }

  lemma Upto0()
    ensures Term(5489, 0) == 5489
  {
  }

  /** The first seeded word. */
  lemma FirstSeeded()
    ensures Term(5489, 1) == 1301868182
  {
    hide Term;
    Upto0();
    Next(0, 5489, 1301868182);
  }

  lemma SecondSeeded()
    ensures Term(5489, 2) == 2938499221
  {
    hide Term;
    FirstSeeded();
    Next(1, 1301868182, 2938499221);
  }

  lemma Upto20()
    ensures Term(5489, 20) == 2982310801
  {
    hide Term;
    Upto0();
    Next(0, 5489, 1301868182); Next(1, 1301868182, 2938499221); Next(2, 2938499221, 2950281878);
    Next(3, 2950281878, 1875628136); Next(4, 1875628136, 751856242); Next(5, 751856242, 944701696);
    Next(6, 944701696, 2243192071); Next(7, 2243192071, 694061057); Next(8, 694061057, 219885934);
    Next(9, 219885934, 2066767472); Next(10, 2066767472, 3182869408); Next(11, 3182869408, 485472502);
    Next(12, 485472502, 2336857883); Next(13, 2336857883, 1071588843); Next(14, 1071588843, 3418470598);
    Next(15, 3418470598, 951210697); Next(16, 951210697, 3693558366); Next(17, 3693558366, 2923482051);
    Next(18, 2923482051, 1793174584); Next(19, 1793174584, 2982310801);
  }

  lemma Upto40()
    ensures Term(5489, 40) == 1603307207
  {
    hide Term;
    Upto20();
    Next(20, 2982310801, 1586906132); Next(21, 1586906132, 1951078751); Next(22, 1951078751, 1808158765);
    Next(23, 1808158765, 1733897588); Next(24, 1733897588, 431328322); Next(25, 431328322, 4202539044);
    Next(26, 4202539044, 530658942); Next(27, 530658942, 1714810322); Next(28, 1714810322, 3025256284);
    Next(29, 3025256284, 3342585396); Next(30, 3342585396, 1937033938); Next(31, 1937033938, 2640572511);
    Next(32, 2640572511, 1654299090); Next(33, 1654299090, 3692403553); Next(34, 3692403553, 4233871309);
    Next(35, 4233871309, 3497650794); Next(36, 3497650794, 862629010); Next(37, 862629010, 2943236032);
    Next(38, 2943236032, 2426458545); Next(39, 2426458545, 1603307207);
  }

  lemma Upto60()
    ensures Term(5489, 60) == 1339167484
  {
    hide Term;
    Upto40();
    Next(40, 1603307207, 1133453895); Next(41, 1133453895, 3099196360); Next(42, 3099196360, 2208657629);
    Next(43, 2208657629, 2747653927); Next(44, 2747653927, 931059398); Next(45, 931059398, 761573964);
    Next(46, 761573964, 3157853227); Next(47, 3157853227, 785880413); Next(48, 785880413, 730313442);
    Next(49, 730313442, 124945756); Next(50, 124945756, 2937117055); Next(51, 2937117055, 3295982469);
    Next(52, 3295982469, 1724353043); Next(53, 1724353043, 3021675344); Next(54, 3021675344, 3884886417);
    Next(55, 3884886417, 4010150098); Next(56, 4010150098, 4056961966); Next(57, 4056961966, 699635835);
    Next(58, 699635835, 2681338818); Next(59, 2681338818, 1339167484);
  }

  lemma Upto80()
    ensures Term(5489, 80) == 624778151
  {
    hide Term;
    Upto60();
    Next(60, 1339167484, 720757518); Next(61, 720757518, 2800161476); Next(62, 2800161476, 2376097373);
    Next(63, 2376097373, 1532957371); Next(64, 1532957371, 3902664099); Next(65, 3902664099, 1238982754);
    Next(66, 1238982754, 3725394514); Next(67, 3725394514, 3449176889); Next(68, 3449176889, 3570962471);
    Next(69, 3570962471, 4287636090); Next(70, 4287636090, 4087307012); Next(71, 4087307012, 3603343627);
    Next(72, 3603343627, 202242161); Next(73, 202242161, 2995682783); Next(74, 2995682783, 1620962684);
    Next(75, 1620962684, 3704723357); Next(76, 3704723357, 371613603); Next(77, 371613603, 2814834333);
    Next(78, 2814834333, 2111005706); Next(79, 2111005706, 624778151);
  }

  lemma Upto100()
    ensures Term(5489, 100) == 1834958505
  {
    hide Term;
    Upto80();
    Next(80, 624778151, 2094172212); Next(81, 2094172212, 4284947003); Next(82, 4284947003, 1211977835);
    Next(83, 1211977835, 991917094); Next(84, 991917094, 1570449747); Next(85, 1570449747, 2962370480);
    Next(86, 2962370480, 1259410321); Next(87, 1259410321, 170182696); Next(88, 170182696, 146300961);
    Next(89, 146300961, 2836829791); Next(90, 2836829791, 619452428); Next(91, 619452428, 2723670296);
    Next(92, 2723670296, 1881399711); Next(93, 1881399711, 1161269684); Next(94, 1161269684, 1675188680);
    Next(95, 1675188680, 4132175277); Next(96, 4132175277, 780088327); Next(97, 780088327, 3409462821);
    Next(98, 3409462821, 1036518241); Next(99, 1036518241, 1834958505);
  }

  lemma Upto120()
    ensures Term(5489, 120) == 2502746480
  {
    hide Term;
    Upto100();
    Next(100, 1834958505, 3048448173); Next(101, 3048448173, 161811569); Next(102, 161811569, 618488316);
    Next(103, 618488316, 44795092); Next(104, 44795092, 3918322701); Next(105, 3918322701, 1924681712);
    Next(106, 1924681712, 3239478144); Next(107, 3239478144, 383254043); Next(108, 383254043, 4042306580);
    Next(109, 4042306580, 2146983041); Next(110, 2146983041, 3992780527); Next(111, 3992780527, 3518029708);
    Next(112, 3518029708, 3545545436); Next(113, 3545545436, 3901231469); Next(114, 3901231469, 1896136409);
    Next(115, 1896136409, 2028528556); Next(116, 2028528556, 2339662006); Next(117, 2339662006, 501326714);
    Next(118, 501326714, 2060962201); Next(119, 2060962201, 2502746480);
  }

  lemma Upto140()
    ensures Term(5489, 140) == 1285330465
  {
    hide Term;
    Upto120();
    Next(120, 2502746480, 561575027); Next(121, 561575027, 581893337); Next(122, 581893337, 3393774360);
    Next(123, 3393774360, 1778912547); Next(124, 1778912547, 3626131687); Next(125, 3626131687, 2175155826);
    Next(126, 2175155826, 319853231); Next(127, 319853231, 986875531); Next(128, 986875531, 819755096);
    Next(129, 819755096, 2915734330); Next(130, 2915734330, 2688355739); Next(131, 2688355739, 3482074849);
    Next(132, 3482074849, 2736559); Next(133, 2736559, 2296975761); Next(134, 2296975761, 1029741190);
    Next(135, 1029741190, 2876812646); Next(136, 2876812646, 690154749); Next(137, 690154749, 579200347);
    Next(138, 579200347, 4027461746); Next(139, 4027461746, 1285330465);
  }

  lemma Upto160()
    ensures Term(5489, 160) == 3955548058
  {
    hide Term;
    Upto140();
    Next(140, 1285330465, 2701024045); Next(141, 2701024045, 4117700889); Next(142, 4117700889, 759495121);
    Next(143, 759495121, 3332270341); Next(144, 3332270341, 2313004527); Next(145, 2313004527, 2277067795);
    Next(146, 2277067795, 4131855432); Next(147, 4131855432, 2722057515); Next(148, 2722057515, 1264804546);
    Next(149, 1264804546, 3848622725); Next(150, 3848622725, 2211267957); Next(151, 2211267957, 4100593547);
    Next(152, 4100593547, 959123777); Next(153, 959123777, 2130745407); Next(154, 2130745407, 3194437393);
    Next(155, 3194437393, 486673947); Next(156, 486673947, 1377371204); Next(157, 1377371204, 17472727);
    Next(158, 17472727, 352317554); Next(159, 352317554, 3955548058);
  }

  lemma Upto180()
    ensures Term(5489, 180) == 2200142389
  {
    hide Term;
    Upto160();
    Next(160, 3955548058, 159652094); Next(161, 159652094, 1232063192); Next(162, 1232063192, 3835177280);
    Next(163, 3835177280, 49423123); Next(164, 49423123, 3083993636); Next(165, 3083993636, 733092);
    Next(166, 733092, 2120519771); Next(167, 2120519771, 2573409834); Next(168, 2573409834, 1112952433);
    Next(169, 1112952433, 3239502554); Next(170, 3239502554, 761045320); Next(171, 761045320, 1087580692);
    Next(172, 1087580692, 2540165110); Next(173, 2540165110, 641058802); Next(174, 641058802, 1792435497);
    Next(175, 1792435497, 2261799288); Next(176, 2261799288, 1579184083); Next(177, 1579184083, 627146892);
    Next(178, 627146892, 2165744623); Next(179, 2165744623, 2200142389);
  }

  lemma Upto200()
    ensures Term(5489, 200) == 123512128
  {
    hide Term;
    Upto180();
    Next(180, 2200142389, 2167590760); Next(181, 2167590760, 2381418376); Next(182, 2381418376, 1793358889);
    Next(183, 1793358889, 3081659520); Next(184, 3081659520, 1663384067); Next(185, 1663384067, 2009658756);
    Next(186, 2009658756, 2689600308); Next(187, 2689600308, 739136266); Next(188, 739136266, 2304581039);
    Next(189, 2304581039, 3529067263); Next(190, 3529067263, 591360555); Next(191, 591360555, 525209271);
    Next(192, 525209271, 3131882996); Next(193, 3131882996, 294230224); Next(194, 294230224, 2076220115);
    Next(195, 2076220115, 3113580446); Next(196, 3113580446, 1245621585); Next(197, 1245621585, 1386885462);
    Next(198, 1386885462, 3203270426); Next(199, 3203270426, 123512128);
  }

  lemma Upto220()
    ensures Term(5489, 220) == 3878728600
  {
    hide Term;
    Upto200();
    Next(200, 123512128, 12350217); Next(201, 12350217, 354956375); Next(202, 354956375, 4282398238);
    Next(203, 4282398238, 3356876605); Next(204, 3356876605, 3888857667); Next(205, 3888857667, 157639694);
    Next(206, 157639694, 2616064085); Next(207, 2616064085, 1563068963); Next(208, 1563068963, 2762125883);
    Next(209, 2762125883, 4045394511); Next(210, 4045394511, 4180452559); Next(211, 4180452559, 3294769488);
    Next(212, 3294769488, 1684529556); Next(213, 1684529556, 1002945951); Next(214, 1002945951, 3181438866);
    Next(215, 3181438866, 22506664); Next(216, 22506664, 691783457); Next(217, 691783457, 2685221343);
    Next(218, 2685221343, 171579916); Next(219, 171579916, 3878728600);
  }

  lemma Upto240()
    ensures Term(5489, 240) == 1678403446
  {
    hide Term;
    Upto220();
    Next(220, 3878728600, 2475806724); Next(221, 2475806724, 2030324028); Next(222, 2030324028, 3331164912);
    Next(223, 3331164912, 1708711359); Next(224, 1708711359, 1970023127); Next(225, 1970023127, 2859691344);
    Next(226, 2859691344, 2588476477); Next(227, 2588476477, 2748146879); Next(228, 2748146879, 136111222);
    Next(229, 136111222, 2967685492); Next(230, 2967685492, 909517429); Next(231, 909517429, 2835297809);
    Next(232, 2835297809, 3206906216); Next(233, 3206906216, 3186870716); Next(234, 3186870716, 341264097);
    Next(235, 341264097, 2542035121); Next(236, 2542035121, 3353277068); Next(237, 3353277068, 548223577);
    Next(238, 548223577, 3170936588); Next(239, 3170936588, 1678403446);
  }

  lemma Upto260()
    ensures Term(5489, 260) == 3048728353
  {
    hide Term;
    Upto240();
    Next(240, 1678403446, 297435620); Next(241, 297435620, 2337555430); Next(242, 2337555430, 466603495);
    Next(243, 466603495, 1132321815); Next(244, 1132321815, 1208589219); Next(245, 1208589219, 696392160);
    Next(246, 696392160, 894244439); Next(247, 894244439, 2562678859); Next(248, 2562678859, 470224582);
    Next(249, 470224582, 3306867480); Next(250, 3306867480, 201364898); Next(251, 201364898, 2075966438);
    Next(252, 2075966438, 1767227936); Next(253, 1767227936, 2929737987); Next(254, 2929737987, 3674877796);
    Next(255, 3674877796, 2654196643); Next(256, 2654196643, 3692734598); Next(257, 3692734598, 3528895099);
    Next(258, 3528895099, 2796780123); Next(259, 2796780123, 3048728353);
  }

  lemma Upto280()
    ensures Term(5489, 280) == 3106564952
  {
    hide Term;
    Upto260();
    Next(260, 3048728353, 842329300); Next(261, 842329300, 191554730); Next(262, 191554730, 2922459673);
    Next(263, 2922459673, 3489020079); Next(264, 3489020079, 3979110629); Next(265, 3979110629, 1022523848);
    Next(266, 1022523848, 2202932467); Next(267, 2202932467, 3583655201); Next(268, 3583655201, 3565113719);
    Next(269, 3565113719, 587085778); Next(270, 587085778, 4176046313); Next(271, 4176046313, 3013713762);
    Next(272, 3013713762, 950944241); Next(273, 950944241, 396426791); Next(274, 396426791, 3784844662);
    Next(275, 3784844662, 3477431613); Next(276, 3477431613, 3594592395); Next(277, 3594592395, 2782043838);
    Next(278, 2782043838, 3392093507); Next(279, 3392093507, 3106564952);
  }

  lemma Upto300()
    ensures Term(5489, 300) == 423621996
  {
    hide Term;
    Upto280();
    Next(280, 3106564952, 2829419931); Next(281, 2829419931, 1358665591); Next(282, 1358665591, 2206918825);
    Next(283, 2206918825, 3170783123); Next(284, 3170783123, 31522386); Next(285, 31522386, 2988194168);
    Next(286, 2988194168, 1782249537); Next(287, 1782249537, 1105080928); Next(288, 1105080928, 843500134);
    Next(289, 843500134, 1225290080); Next(290, 1225290080, 1521001832); Next(291, 1521001832, 3605886097);
    Next(292, 3605886097, 2802786495); Next(293, 2802786495, 2728923319); Next(294, 2728923319, 3996284304);
    Next(295, 3996284304, 903417639); Next(296, 903417639, 1171249804); Next(297, 1171249804, 1020374987);
    Next(298, 1020374987, 2824535874); Next(299, 2824535874, 423621996);
  }

  lemma Upto320()
    ensures Term(5489, 320) == 2962920654
  {
    hide Term;
    Upto300();
    Next(300, 423621996, 1988534473); Next(301, 1988534473, 2493544470); Next(302, 2493544470, 1008604435);
    Next(303, 1008604435, 1756003503); Next(304, 1756003503, 1488867287); Next(305, 1488867287, 1386808992);
    Next(306, 1386808992, 732088248); Next(307, 732088248, 1780630732); Next(308, 1780630732, 2482101014);
    Next(309, 2482101014, 976561178); Next(310, 976561178, 1543448953); Next(311, 1543448953, 2602866064);
    Next(312, 2602866064, 2021139923); Next(313, 2021139923, 1952599828); Next(314, 1952599828, 2360242564);
    Next(315, 2360242564, 2117959962); Next(316, 2117959962, 2753061860); Next(317, 2753061860, 2388623612);
    Next(318, 2388623612, 4138193781); Next(319, 4138193781, 2962920654);
  }

  lemma Upto340()
    ensures Term(5489, 340) == 607905174
  {
    hide Term;
    Upto320();
    Next(320, 2962920654, 2284970429); Next(321, 2284970429, 766920861); Next(322, 766920861, 3457264692);
    Next(323, 3457264692, 2879611383); Next(324, 2879611383, 815055854); Next(325, 815055854, 2332929068);
    Next(326, 2332929068, 1254853997); Next(327, 1254853997, 3740375268); Next(328, 3740375268, 3799380844);
    Next(329, 3799380844, 4091048725); Next(330, 4091048725, 2006331129); Next(331, 2006331129, 1982546212);
    Next(332, 1982546212, 686850534); Next(333, 686850534, 1907447564); Next(334, 1907447564, 2682801776);
    Next(335, 2682801776, 2780821066); Next(336, 2780821066, 998290361); Next(337, 998290361, 1342433871);
    Next(338, 1342433871, 4195430425); Next(339, 4195430425, 607905174);
  }

  lemma Upto360()
    ensures Term(5489, 360) == 4238214053
  {
    hide Term;
    Upto340();
    Next(340, 607905174, 3902331779); Next(341, 3902331779, 2454067926); Next(342, 2454067926, 1708133115);
    Next(343, 1708133115, 1170874362); Next(344, 1170874362, 2008609376); Next(345, 2008609376, 3260320415);
    Next(346, 3260320415, 2211196135); Next(347, 2211196135, 433538229); Next(348, 433538229, 2728786374);
    Next(349, 2728786374, 2189520818); Next(350, 2189520818, 262554063); Next(351, 262554063, 1182318347);
    Next(352, 1182318347, 3710237267); Next(353, 3710237267, 1221022450); Next(354, 1221022450, 715966018);
    Next(355, 715966018, 2417068910); Next(356, 2417068910, 2591870721); Next(357, 2591870721, 2870691989);
    Next(358, 2870691989, 3418190842); Next(359, 3418190842, 4238214053);
  }

  lemma Upto380()
    ensures Term(5489, 380) == 928171837
  {
    hide Term;
    Upto360();
    Next(360, 4238214053, 1540704231); Next(361, 1540704231, 1575580968); Next(362, 1575580968, 2095917976);
    Next(363, 2095917976, 4078310857); Next(364, 4078310857, 2313532447); Next(365, 2313532447, 2110690783);
    Next(366, 2110690783, 4056346629); Next(367, 4056346629, 4061784526); Next(368, 4061784526, 1123218514);
    Next(369, 1123218514, 551538993); Next(370, 551538993, 597148360); Next(371, 597148360, 4120175196);
    Next(372, 4120175196, 3581618160); Next(373, 3581618160, 3181170517); Next(374, 3181170517, 422862282);
    Next(375, 422862282, 3227524138); Next(376, 3227524138, 1713114790); Next(377, 1713114790, 662317149);
    Next(378, 662317149, 1230418732); Next(379, 1230418732, 928171837);
  }

  lemma Upto397()
    ensures Term(5489, 397) == 3183906156
  {
    hide Term;
    Upto380();
    Next(380, 928171837, 1324564878); Next(381, 1324564878, 1928816105); Next(382, 1928816105, 1786535431);
    Next(383, 1786535431, 2878099422); Next(384, 2878099422, 3290185549); Next(385, 3290185549, 539474248);
    Next(386, 539474248, 1657512683); Next(387, 1657512683, 552370646); Next(388, 552370646, 1671741683);
    Next(389, 1671741683, 3655312128); Next(390, 3655312128, 1552739510); Next(391, 1552739510, 2605208763);
    Next(392, 2605208763, 1441755014); Next(393, 1441755014, 181878989); Next(394, 181878989, 3124053868);
    Next(395, 3124053868, 1447103986); Next(396, 1447103986, 3183906156);
  }

  lemma Upto398()
    ensures Term(5489, 398) == 1728556020
  {
    hide Term;
    Upto397();
    Next(397, 3183906156, 1728556020);
  }

  lemma FirstOutputIs(first: Word, second: Word, far: Word)
    requires Term(5489, 0) == first && Term(5489, 1) == second && Term(5489, 397) == far
    ensures Output(5489, 0) == Temper(Xor(far, Twist(first, second)))
  {
    hide Temper, Xor, Twist, SeedStep;
  }

  /** The first output for the seed 5489. */
  lemma FirstOutput()
    ensures Output(5489, 0) == 3499211612
  {
    Upto0();
    FirstSeeded();
    Upto397();
    FirstOutputIs(5489, 1301868182, 3183906156);
    hide Output, Term;
    assert Xor(3183906156, Twist(5489, 1301868182)) == 2601187879;
    assert Temper(2601187879) == 3499211612;
  }

  lemma SecondOutputIs(first: Word, second: Word, far: Word)
    requires Term(5489, 1) == first && Term(5489, 2) == second && Term(5489, 398) == far
    ensures Output(5489, 1) == Temper(Xor(far, Twist(first, second)))
  {
    hide Temper, Xor, Twist, SeedStep;
  }

  /** And the second. */
  lemma SecondOutput()
    ensures Output(5489, 1) == 581869302
  {
    FirstSeeded();
    SecondSeeded();
    Upto398();
    SecondOutputIs(1301868182, 2938499221, 1728556020);
    hide Output, Term;
    assert Xor(1728556020, Twist(1301868182, 2938499221)) == 3919438689;
    assert Temper(3919438689) == 581869302;
  }
}
