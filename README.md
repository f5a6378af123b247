# Wireless anomaly detection scripts, modelled in Dafny

The repository is a set of Python scripts that read `tshark` output, `scapy`
packet lists and Kismet exports, and flag suspicious wireless behaviour. This
project models the decision logic of those scripts and proves what they report.
The external tools and file formats become plain values.

- **Wi-Fi detectors over `tshark -T fields` output.**
  - Evil Twin: one SSID announced by more than one BSSID (`EvilTwinDetection`).
  - Rogue AP: an SSID outside the fixed whitelist (`RogueApDetection`).
  - EAPOL replay: more than three EAPOL frames from one MAC (`EapolReplayDetection`).
  - The shared line filter, tab split and hex SSID decode are in `TsharkOutput`.
  - The decode is `binascii.unhexlify` (`Hex`) followed by `bytes.decode("utf-8", "ignore")` (`Utf8`).
- **The pyvip variants.** Comma-separated `tshark` output goes into a pandas `DataFrame`, then `groupby`.
  - The frame construction is in `PyvipFrame`: missing fields become null cells, and a frame whose widest line does not have exactly as many fields as there are columns is an error.
  - The four summaries are in `PyvipRogueAp`, `PyvipEvilTwin`, `PyvipEapolReplay` and `PyvipDeauth`.
  - `Grouping.SortedDistinct` models pandas' sorted group keys, which drop null keys.
- **MAC-randomisation analysis.**
  - SSID sets per MAC and their Jaccard index / similarity matrix (`SsidSetsTshark`, `SsidSetsScapy`).
  - Fingerprint groups: an md5 of the tshark field blob (`FingerprintTshark`) or of the concatenated information elements (`FingerprintScapy`).
  - Timing profiles per MAC: sorted times, mean gap, span, frame count (`TemporalProfiles`).
- **Bluetooth (`Bluetooth`).**
  - Device enrichment: BLE/Classic type, services text, vendor prefix.
  - The four behaviour rules and which one wins.
  - The derived tables: per-behaviour subsets, rotating vendor prefixes, repetitive short-lived advertisers, strong silent devices.
  - The KML document.

Loops that update dictionaries or lists in the source are Dafny methods with
`while` loops. Each is proved against a specification function, and that
function's meaning is proved as separate lemmas. The two in-place updates of
bluetooth.py are methods over an `array`: the device enrichment
(`EnrichDevices`) and the `df.loc` relabelling (`Overwrite`). Python's `str`
operations (`strip`, `split`, `join`, ASCII `lower`) are defined in `Text`.
Insertion-ordered dictionaries are modelled by `Grouping.Distinct` over the keys
in arrival order, with `Grouping.Select` giving each key's values.

## Model

| member | source | states |
|---|---|---|
| Text.Strip | WiFi/pyvip/pyvip_RogueAPDetection.py:27 | the result neither starts nor ends with Python whitespace |
| Text.StripTrims | WiFi/pyvip/pyvip_RogueAPDetection.py:27 | the result is the slice of the input after its leading whitespace, with only whitespace after it |
| Text.StripUnique | WiFi/pyvip/pyvip_RogueAPDetection.py:27 | any slice with only whitespace outside it and none at its ends is the stripped text, so strip removes all the surrounding whitespace and no more |
| Text.StripKeeps | WiFi/pyvip/pyvip_RogueAPDetection.py:27 | strip removes only whitespace: every non-space character of the input survives |
| Text.StripWithin | WiFi/pyvip/pyvip_RogueAPDetection.py:27 | strip invents nothing: every character of the result was in the input |
| Text.StripStripped | WiFi/pyvip/pyvip_RogueAPDetection.py:27 | strip is idempotent |
| Text.Lower | WiFi/MACRandomization/SSID_Clustering/tshark_SSID_List_Clustering.py:62 | lower keeps the length and maps each character through the ASCII case map |
| Text.Split | WiFi/pyvip/pyvip_RogueAPDetection.py:24 | split yields at least one piece, and no piece contains the separator |
| Text.JoinSplit | WiFi/pyvip/pyvip_RogueAPDetection.py:24 | joining the pieces of a split with the separator gives back the input |
| Text.SplitLength | WiFi/pyvip/pyvip_RogueAPDetection.py:24 | split yields one piece more than there are separators |
| Text.SplitJoinCount | Bluetooth/bluetooth.py:127 | splitting a ", "-joined list on "," gives back as many pieces as the list had items |
| Utf8.DecodeEncode | WiFi/EvilTwinDetection/EvilTwinDetection.py:33 | decoding with errors ignored is the inverse of UTF-8 encoding |
| Utf8.DecodeAscii | WiFi/EvilTwinDetection/EvilTwinDetection.py:33 | ASCII bytes decode one character per byte, to the same code point |
| Hex.Unhexlify | WiFi/EvilTwinDetection/EvilTwinDetection.py:33-35 | unhexlify refuses non-ASCII text, then odd length, then a non-hex digit, each exactly when it applies; otherwise byte i is the value of hex digits 2i and 2i+1 |
| Hex.Hexlify | WiFi/EvilTwinDetection/EvilTwinDetection.py:33 | hexlify writes two lowercase hex digits per byte, high nibble first |
| Hex.UnhexlifyHexlify | WiFi/EvilTwinDetection/EvilTwinDetection.py:33 | unhexlify is the inverse of hexlify |
| Grouping.Distinct | WiFi/EvilTwinDetection/EvilTwinDetection.py:27-36 | a dictionary's key order has no duplicates and is no longer than the inserts |
| Grouping.DistinctMember | WiFi/EvilTwinDetection/EvilTwinDetection.py:40 | a key is in the dictionary iff it was inserted at least once |
| Grouping.DistinctFirstSeen | WiFi/EvilTwinDetection/EvilTwinDetection.py:40 | dictionary keys come out in order of first insertion |
| Grouping.SelectCount | WiFi/EAPOLReplayAttackDetection/EAPOLReplayAttackDetection.py:30 | a key's value list is as long as the number of rows with that key |
| Grouping.TotalSizeCovers | WiFi/pyvip/pyvip_DeAuthAttackDetection.py:26 | when every row's key is among the groups, the group sizes add up to the number of rows |
| Grouping.SortedDistinct | WiFi/pyvip/pyvip_DeAuthAttackDetection.py:26 | groupby keys are strictly ascending, and they are exactly the keys that occur |
| Grouping.KeyBelowTotal | WiFi/pyvip/pyvip_DeAuthAttackDetection.py:26 | the tuple order on group keys is total |
| Grouping.KeyBelowTransitive | WiFi/pyvip/pyvip_DeAuthAttackDetection.py:26 | the tuple order on group keys is transitive |
| TsharkOutput.SplitTabPair | WiFi/EvilTwinDetection/EvilTwinDetection.py:31 | unpacking into two fields succeeds iff the line has exactly one tab, and the two fields rebuild the line; otherwise it raises |
| TsharkOutput.DecodeSsid | WiFi/EvilTwinDetection/EvilTwinDetection.py:32-35 | non-ASCII input crashes; odd-length or non-hex input falls back to the raw field |
| TsharkOutput.DecodeSsidOfHex | WiFi/EvilTwinDetection/EvilTwinDetection.py:33 | the hex form of any SSID decodes back to that SSID |
| TsharkOutput.BeaconLine | WiFi/EvilTwinDetection/EvilTwinDetection.py:30 | a line is processed iff it is non-empty and holds a tab |
| TsharkOutput.BeaconPairsErrStays | WiFi/EvilTwinDetection/EvilTwinDetection.py:29-36 | the first line that raises ends the run with that error |
| TsharkOutput.BeaconPairsOneEach | WiFi/EvilTwinDetection/EvilTwinDetection.py:29-36 | a run that completes yields one pair per field line, and no field line failed to unpack |
| EvilTwinDetection.Reported | WiFi/EvilTwinDetection/EvilTwinDetection.py:39-42 | an SSID is reported iff it is among those walked and has more than one BSSID, with exactly its BSSID set |
| EvilTwinDetection.TwinsExactly | WiFi/EvilTwinDetection/EvilTwinDetection.py:27-42 | a twin is reported iff its SSID was seen with more than one distinct BSSID |
| EvilTwinDetection.NoTwinIffSingleBssids | WiFi/EvilTwinDetection/EvilTwinDetection.py:47-48 | "No Evil Twin" iff every SSID seen has at most one BSSID |
| EvilTwinDetection.CollectBssids | WiFi/EvilTwinDetection/EvilTwinDetection.py:27-36 | the loop crashes iff the line model crashes, with the same error; otherwise it builds the BSSID set of every SSID, in first-seen order |
| EvilTwinDetection.ReportTwins | WiFi/EvilTwinDetection/EvilTwinDetection.py:39-48 | the report walk yields exactly the reported twins, and `found` iff there is one |
| EvilTwinDetection.EvilTwinScript | WiFi/EvilTwinDetection/EvilTwinDetection.py:7-50 | without encapsulation type 23 the check is skipped; a crash while reading lines is reported as one; otherwise the twins are exactly those of the beacon pairs |
| RogueApDetection.Rogues | WiFi/RogueAPDetection/RogueAPDetection.py:40-41 | a pair is flagged iff it was seen and its SSID is outside the whitelist |
| RogueApDetection.RoguesAppend | WiFi/RogueAPDetection/RogueAPDetection.py:32-41 | flagging works line by line, so the flags of a concatenation are the concatenation of the flags |
| RogueApDetection.NoRoguesIffAllTrusted | WiFi/RogueAPDetection/RogueAPDetection.py:44-49 | "No Rogue APs" iff every SSID seen is whitelisted |
| RogueApDetection.RogueApScript | WiFi/RogueAPDetection/RogueAPDetection.py:16-49 | skipped without Wi-Fi; a crash is reported as one; otherwise the result is the flagged pairs in line order |
| EapolReplayDetection.EapolPairsOneEach | WiFi/EAPOLReplayAttackDetection/EAPOLReplayAttackDetection.py:27-30 | a run that completes counts one frame per field line |
| EapolReplayDetection.FlaggedMember | WiFi/EAPOLReplayAttackDetection/EAPOLReplayAttackDetection.py:34-37 | a (MAC, count) is reported iff the MAC is walked, the count is its EAPOL frame count, and that count exceeds 3 |
| EapolReplayDetection.ReplaysExactly | WiFi/EAPOLReplayAttackDetection/EAPOLReplayAttackDetection.py:26-37 | a MAC is reported with a count iff it sent exactly that many EAPOL frames and more than 3 |
| EapolReplayDetection.CountsAddUp | WiFi/EAPOLReplayAttackDetection/EAPOLReplayAttackDetection.py:26-30 | the per-MAC counts add up to the number of EAPOL lines |
| EapolReplayDetection.CountEapol | WiFi/EAPOLReplayAttackDetection/EAPOLReplayAttackDetection.py:26-30 | the counting loop crashes iff a field line does not unpack into two; otherwise it holds each MAC's frame count, in first-seen order |
| EapolReplayDetection.ReportReplays | WiFi/EAPOLReplayAttackDetection/EAPOLReplayAttackDetection.py:33-40 | the report walk yields exactly the MACs above the threshold, and `found` iff there is one |
| EapolReplayDetection.EapolReplayScript | WiFi/EAPOLReplayAttackDetection/EAPOLReplayAttackDetection.py:26-40 | skipped without Wi-Fi; a crash is reported as one; otherwise the replays are exactly those of the EAPOL pairs |
| SsidSetsTshark.ObservedMembers | WiFi/MACRandomization/SSID_Clustering/tshark_SSID_List_Clustering.py:56-62 | rows without a MAC are dropped; every other row contributes its lower-cased MAC and its SSID cell |
| SsidSetsTshark.MacColumnExactly | WiFi/MACRandomization/SSID_Clustering/tshark_SSID_List_Clustering.py:59-69 | a MAC is listed iff some row carries it, after lower-casing |
| SsidSetsTshark.SsidSetExactly | WiFi/MACRandomization/SSID_Clustering/tshark_SSID_List_Clustering.py:66-67 | an SSID is in a MAC's set iff some row pairs that MAC with that non-empty SSID |
| SsidSetsTshark.SilentMacListed | WiFi/MACRandomization/SSID_Clustering/tshark_SSID_List_Clustering.py:64-65 | a MAC seen only with missing or empty SSIDs is still listed, with an empty set |
| SsidSetsTshark.BuildSsidSets | WiFi/MACRandomization/SSID_Clustering/tshark_SSID_List_Clustering.py:59-72 | the two columns hold each listed MAC and its SSID set, in first-seen order |
| SsidSetsTshark.JaccardIndex | WiFi/MACRandomization/SSID_Clustering/tshark_SSID_List_Clustering.py:96-111 | the index lies in [0, 1]; it is 1 iff the sets are equal, and 0 iff they are disjoint and not both empty |
| SsidSetsTshark.JaccardIsRatio | WiFi/MACRandomization/SSID_Clustering/tshark_SSID_List_Clustering.py:109-111 | for sets not both empty, the index is the size of the intersection over the size of the union |
| SsidSetsTshark.JaccardSymmetric | WiFi/MACRandomization/SSID_Clustering/tshark_SSID_List_Clustering.py:96-111 | the index does not depend on argument order |
| SsidSetsTshark.DistanceMatrixShape | WiFi/MACRandomization/SSID_Clustering/tshark_SSID_List_Clustering.py:86-88 | the distance matrix is square, symmetric, zero on the diagonal and in [0, 1] |
| SsidSetsScapy.FirstSsidExactly | WiFi/MACRandomization/SSID_Clustering/SSID_List_Clustering.py:15-20 | the element walk finds nothing iff no element is a non-empty SSID element; otherwise it finds the decoded first one |
| SsidSetsScapy.ScanElements | WiFi/MACRandomization/SSID_Clustering/SSID_List_Clustering.py:15-20 | the while loop over the element chain stops at the first non-empty SSID element |
| SsidSetsScapy.SsidPairsMember | WiFi/MACRandomization/SSID_Clustering/SSID_List_Clustering.py:12-20 | the loop adds (MAC, SSID) iff some probe request from that MAC names that SSID in its first non-empty SSID element |
| SsidSetsScapy.SsidSetExactly | WiFi/MACRandomization/SSID_Clustering/SSID_List_Clustering.py:12-20 | a MAC's stored set holds exactly the SSIDs its probe requests named first |
| SsidSetsScapy.StoredSetsNonEmpty | WiFi/MACRandomization/SSID_Clustering/SSID_List_Clustering.py:18 | every MAC in the map has at least one SSID |
| SsidSetsScapy.MacListedIffNamedProbe | WiFi/MACRandomization/SSID_Clustering/SSID_List_Clustering.py:12-23 | a MAC is listed iff it sent a probe request carrying a non-empty SSID |
| SsidSetsScapy.AddSsid | WiFi/MACRandomization/SSID_Clustering/SSID_List_Clustering.py:18 | one addition puts the SSID into its MAC's set and appends the MAC to the order when it is new, as the map of all additions so far says |
| SsidSetsScapy.BuildSsidMap | WiFi/MACRandomization/SSID_Clustering/SSID_List_Clustering.py:10-24 | the two lists hold each listed MAC and its SSID set, in first-seen order |
| SsidSetsScapy.Similarity | WiFi/MACRandomization/SSID_Clustering/SSID_List_Clustering.py:33 | the similarity lies in [0, 1]; it is 1 iff the sets are equal and non-empty, and 0 iff they are disjoint |
| SsidSetsScapy.SimilarityVersusJaccard | WiFi/MACRandomization/SSID_Clustering/SSID_List_Clustering.py:33 | the similarity equals the tshark variant's Jaccard index except on two empty sets, where it is 0 and the other is 1 |
| SsidSetsScapy.SimilaritySymmetric | WiFi/MACRandomization/SSID_Clustering/SSID_List_Clustering.py:33 | the similarity does not depend on argument order |
| SsidSetsScapy.SimilarityMatrix | WiFi/MACRandomization/SSID_Clustering/SSID_List_Clustering.py:28-35 | the nested loops fill an n-by-n matrix whose entry (i, j) is the similarity of sets i and j |
| SsidSetsScapy.SimilarityMatrixShape | WiFi/MACRandomization/SSID_Clustering/SSID_List_Clustering.py:28-35 | over the stored (non-empty) sets the matrix is symmetric, in [0, 1], with ones on the diagonal |
| SsidSetsScapy.DistancesShape | WiFi/MACRandomization/SSID_Clustering/SSID_List_Clustering.py:40 | over the stored (non-empty) sets the distances handed to DBSCAN form a square, symmetric matrix in [0, 1], zero on the diagonal, and zero exactly between equal sets |
| FingerprintTshark.RecordOf | WiFi/MACRandomization/Fingerprint_Clustering/tshark_Fingerprint_Clustering.py:36-41 | a line yields a record iff it holds a tab |
| FingerprintTshark.RecordOfFields | WiFi/MACRandomization/Fingerprint_Clustering/tshark_Fingerprint_Clustering.py:39-40 | the record is the first field and the rest of the line with its tabs removed |
| FingerprintTshark.RecordsOnePerTabLine | WiFi/MACRandomization/Fingerprint_Clustering/tshark_Fingerprint_Clustering.py:34-43 | there is one record per field line |
| FingerprintTshark.ExtractFields | WiFi/MACRandomization/Fingerprint_Clustering/tshark_Fingerprint_Clustering.py:34-43 | the loop yields the records of the output's lines in order; blank output yields none |
| FingerprintTshark.FingerprintPairs | WiFi/MACRandomization/Fingerprint_Clustering/tshark_Fingerprint_Clustering.py:50-51 | each record becomes the md5 of its blob paired with its MAC, in order |
| FingerprintTshark.GroupMacsExactly | WiFi/MACRandomization/Fingerprint_Clustering/tshark_Fingerprint_Clustering.py:49-53 | a fingerprint's list has no duplicate, and holds a MAC iff some record of that MAC has that fingerprint |
| FingerprintTshark.SameBlobSameGroup | WiFi/MACRandomization/Fingerprint_Clustering/tshark_Fingerprint_Clustering.py:49-53 | records with equal blobs land in the same group |
| FingerprintTshark.GroupByFingerprint | WiFi/MACRandomization/Fingerprint_Clustering/tshark_Fingerprint_Clustering.py:49-53 | the loop's dictionary maps each fingerprint, in first-seen order, to its distinct MACs |
| FingerprintTshark.ClustersFrom | WiFi/MACRandomization/Fingerprint_Clustering/tshark_Fingerprint_Clustering.py:55-61 | clusters are numbered 1, 2, … without gaps, and each holds more than one MAC |
| FingerprintTshark.ClustersExactly | WiFi/MACRandomization/Fingerprint_Clustering/tshark_Fingerprint_Clustering.py:55-61 | a MAC list is a cluster iff it is a fingerprint group with more than one MAC |
| FingerprintTshark.NoClustersIffSingleMacs | WiFi/MACRandomization/Fingerprint_Clustering/tshark_Fingerprint_Clustering.py:63-68 | "No multi-MAC clusters" iff every fingerprint is shared by at most one MAC |
| FingerprintTshark.NumberClusters | WiFi/MACRandomization/Fingerprint_Clustering/tshark_Fingerprint_Clustering.py:55-61 | the numbering loop yields exactly the clusters of the groups it walks |
| FingerprintTshark.ClusterByFingerprint | WiFi/MACRandomization/Fingerprint_Clustering/tshark_Fingerprint_Clustering.py:45-68 | the clusters are those of the records' fingerprints, and the CSV is written iff there is one |
| FingerprintScapy.CollectIes | WiFi/MACRandomization/Fingerprint_Clustering/Fingerprint_Clustering.py:16-20 | one chunk per element; each chunk is its element's bytes followed by the next chunk, since `bytes(elt)` includes the element's payload |
| FingerprintScapy.ListLengthIsPacketCount | WiFi/MACRandomization/Fingerprint_Clustering/Fingerprint_Clustering.py:13-23 | a fingerprint's MAC list is as long as the number of probe requests with elements that hash to it |
| FingerprintScapy.PairsPerPacket | WiFi/MACRandomization/Fingerprint_Clustering/Fingerprint_Clustering.py:13-23 | exactly the probe requests with at least one element contribute a MAC |
| FingerprintScapy.ListedIffSent | WiFi/MACRandomization/Fingerprint_Clustering/Fingerprint_Clustering.py:13-23 | a MAC is in a fingerprint's list iff it sent a probe request whose elements hash to it |
| FingerprintScapy.FingerprintRows | WiFi/MACRandomization/Fingerprint_Clustering/Fingerprint_Clustering.py:11-26 | one row per fingerprint, in first-seen order, holding that fingerprint's MAC list |
| FingerprintScapy.RowsCoverPackets | WiFi/MACRandomization/Fingerprint_Clustering/Fingerprint_Clustering.py:11-26 | no row is empty, and the rows' list lengths add up to the contributing packets |
| TemporalProfiles.RetainedCount | WiFi/MACRandomization/Temporal_Clustering/tshark_Temporal_Clustering.py:53-54 | `dropna` keeps exactly the rows with both a MAC and a time |
| TemporalProfiles.GroupsExactly | WiFi/MACRandomization/Temporal_Clustering/tshark_Temporal_Clustering.py:58 | there is one group per MAC with a complete row, in ascending MAC order |
| TemporalProfiles.SortTimesCorrect | WiFi/MACRandomization/Temporal_Clustering/tshark_Temporal_Clustering.py:59 | the sorted times are chronological and a permutation of the group's times |
| TemporalProfiles.GapsTelescope | WiFi/MACRandomization/Temporal_Clustering/tshark_Temporal_Clustering.py:61-64 | the inter-arrival gaps add up to last minus first |
| TemporalProfiles.ProfileCounts | WiFi/MACRandomization/Temporal_Clustering/tshark_Temporal_Clustering.py:60-76 | the profile counts the group's frames, has a non-negative span and a mean gap of span/(n-1); a lone frame gets zeros |
| TemporalProfiles.ProfileSpan | WiFi/MACRandomization/Temporal_Clustering/tshark_Temporal_Clustering.py:64 | the span is the largest difference between two of the group's times, and it is attained |
| TemporalProfiles.GroupsCoverRows | WiFi/MACRandomization/Temporal_Clustering/tshark_Temporal_Clustering.py:54-58 | grouping puts every kept row into exactly one group |
| TemporalProfiles.ProfileGroup | WiFi/MACRandomization/Temporal_Clustering/tshark_Temporal_Clustering.py:59-76 | the loop body computes the profile of its group: the lower-cased MAC, the frame count, a span of at least 0, and a mean gap equal to the span over the number of gaps; a group of one frame gets zeros |
| TemporalProfiles.BuildTemporalProfiles | WiFi/MACRandomization/Temporal_Clustering/tshark_Temporal_Clustering.py:53-76 | one profile per group, in group order, and the frame counts add up to the kept rows |
| TemporalProfiles.FrameCountsAddUp | WiFi/MACRandomization/Temporal_Clustering/tshark_Temporal_Clustering.py:70-76 | the profiles' frame counts add up to the kept rows |
| PyvipFrame.NonEmptyLines | WiFi/pyvip/pyvip_RogueAPDetection.py:24 | exactly the non-empty lines are kept |
| PyvipFrame.FieldRows | WiFi/pyvip/pyvip_RogueAPDetection.py:24 | one field list per non-empty line; each has at least one field and no field holds a comma |
| PyvipFrame.FieldRowsRoundTrip | WiFi/pyvip/pyvip_RogueAPDetection.py:24 | re-joining a row's fields with commas gives the stripped line |
| PyvipFrame.MaxWidth | WiFi/pyvip/pyvip_RogueAPDetection.py:25 | the widest row's width bounds every row and is attained |
| PyvipFrame.UnpadPad | WiFi/pyvip/pyvip_RogueAPDetection.py:25 | padding a short row with missing cells loses none of its fields |
| PyvipFrame.Frame | WiFi/pyvip/pyvip_RogueAPDetection.py:25 | the DataFrame is built iff no row is wider than the columns and, when there are rows, one fills them; each row is padded with missing cells |
| PyvipFrame.FrameMember | WiFi/pyvip/pyvip_RogueAPDetection.py:25 | a padded row is in the frame iff its fields were a line of the output |
| PyvipFrame.PresentMember | WiFi/pyvip/pyvip_EvilTwinDetection.py:31 | dropping missing cells keeps exactly the present values |
| PyvipFrame.PresentAll | WiFi/pyvip/pyvip_DeAuthAttackDetection.py:26 | when no cell is missing, counting non-null values counts every row |
| PyvipRogueAp.KnownList | WiFi/pyvip/pyvip_RogueAPDetection.py:27 | the known SSIDs are exactly the non-empty stripped pieces |
| PyvipRogueAp.KnownSsidShape | WiFi/pyvip/pyvip_RogueAPDetection.py:27 | every known SSID is non-empty, stripped and comma-free |
| PyvipRogueAp.KnownSsidsListed | WiFi/pyvip/pyvip_RogueAPDetection.py:27 | every piece that is not blank after stripping is known |
| PyvipRogueAp.CompletePairsExactly | WiFi/pyvip/pyvip_RogueAPDetection.py:25 | `dropna` keeps a pair iff it was a two-field line |
| PyvipRogueAp.ListAccessPoints | WiFi/pyvip/pyvip_RogueAPDetection.py:24-30 | the listing fails iff the DataFrame cannot be built |
| PyvipRogueAp.ListingExactly | WiFi/pyvip/pyvip_RogueAPDetection.py:25 | the deduplicated pairs are exactly the two-field lines, without repeats |
| PyvipRogueAp.RogueApLabels | WiFi/pyvip/pyvip_RogueAPDetection.py:28-30 | every listed row is labelled by whitelist membership |
| PyvipRogueAp.RogueApListing | WiFi/pyvip/pyvip_RogueAPDetection.py:24-30 | the listing holds every two-field line once and nothing else |
| PyvipEvilTwin.SummarizeTwins | WiFi/pyvip/pyvip_EvilTwinDetection.py:24-33 | the summary fails iff the DataFrame cannot be built |
| PyvipEvilTwin.NamedRowsExactly | WiFi/pyvip/pyvip_EvilTwinDetection.py:28 | hidden (empty) SSIDs are dropped; every other line is kept with its BSSID cell |
| PyvipEvilTwin.CountedExactly | WiFi/pyvip/pyvip_EvilTwinDetection.py:31 | after deduplication the non-null (SSID, BSSID) pairs are exactly the two-field lines with a named SSID |
| PyvipEvilTwin.BssidCountIsDistinct | WiFi/pyvip/pyvip_EvilTwinDetection.py:31-32 | an SSID's count is its number of distinct BSSIDs |
| PyvipEvilTwin.SsidGroupsExactly | WiFi/pyvip/pyvip_EvilTwinDetection.py:31 | there is one group per named SSID, in ascending order |
| PyvipEvilTwin.DedupedKeys | WiFi/pyvip/pyvip_EvilTwinDetection.py:31 | deduplication loses no SSID |
| PyvipEvilTwin.BssidCountsAddUp | WiFi/pyvip/pyvip_EvilTwinDetection.py:31-32 | the counts add up to the distinct non-null pairs |
| PyvipEvilTwin.EvilTwinSsids | WiFi/pyvip/pyvip_EvilTwinDetection.py:28-33 | an SSID is summarised iff it is non-empty and heads some line |
| PyvipEvilTwin.EvilTwinOrder | WiFi/pyvip/pyvip_EvilTwinDetection.py:31 | summary rows are in strictly ascending SSID order |
| PyvipEvilTwin.EvilTwinCounts | WiFi/pyvip/pyvip_EvilTwinDetection.py:31-33 | each row counts its SSID's distinct BSSIDs and is labelled "evil_twin" |
| PyvipEapolReplay.SummarizeSources | WiFi/pyvip/pyvip_EAPOLReplayAttackDetection.py:23-30 | the summary fails iff the DataFrame cannot be built |
| PyvipEapolReplay.CountOfLine | WiFi/pyvip/pyvip_EAPOLReplayAttackDetection.py:28-29 | every line contributes its source address as a one-column key |
| PyvipEapolReplay.CountsAreOnes | WiFi/pyvip/pyvip_EAPOLReplayAttackDetection.py:28 | every row's count is 1 |
| PyvipEapolReplay.SourceCountIsLines | WiFi/pyvip/pyvip_EAPOLReplayAttackDetection.py:29 | a source's summed count is its number of lines |
| PyvipEapolReplay.SourcesExactly | WiFi/pyvip/pyvip_EAPOLReplayAttackDetection.py:29 | there is one group per source address, in ascending order |
| PyvipEapolReplay.EapolSources | WiFi/pyvip/pyvip_EAPOLReplayAttackDetection.py:29 | an address is summarised iff it heads some line |
| PyvipEapolReplay.EapolOrder | WiFi/pyvip/pyvip_EAPOLReplayAttackDetection.py:29 | summary rows are in strictly ascending address order |
| PyvipEapolReplay.EapolCounts | WiFi/pyvip/pyvip_EAPOLReplayAttackDetection.py:28-30 | each row counts its address's lines and is labelled "eapol_replay"; the counts add up to the lines |
| PyvipEapolReplay.TimeIgnored | WiFi/pyvip/pyvip_EAPOLReplayAttackDetection.py:25-29 | the summary does not depend on the time column |
| PyvipDeauth.SummarizeDeauth | WiFi/pyvip/pyvip_DeAuthAttackDetection.py:23-27 | the summary fails iff the DataFrame cannot be built |
| PyvipDeauth.KeyedRowsExactly | WiFi/pyvip/pyvip_DeAuthAttackDetection.py:26 | the group keys come from the full three-field lines only, as (source, BSSID) |
| PyvipDeauth.GroupsExactly | WiFi/pyvip/pyvip_DeAuthAttackDetection.py:26 | there is one group per (source, BSSID) of a full line, in ascending order |
| PyvipDeauth.GroupSize | WiFi/pyvip/pyvip_DeAuthAttackDetection.py:26 | a group's size is the number of full lines with its key, and `count()` counts all of them |
| PyvipDeauth.GroupsCover | WiFi/pyvip/pyvip_DeAuthAttackDetection.py:26 | the groups together hold every full line |
| PyvipDeauth.DeauthPairs | WiFi/pyvip/pyvip_DeAuthAttackDetection.py:26 | the summary lists each (source, BSSID) of a full line once, in ascending order |
| PyvipDeauth.DeauthCounts | WiFi/pyvip/pyvip_DeAuthAttackDetection.py:25-27 | each row counts its key's full lines in both count columns and is labelled "deauth"; the counts add up to the full lines |
| Bluetooth.BluetoothDevices | Bluetooth/bluetooth.py:108 | exactly the devices whose lower-cased phy name is "bluetooth" are kept |
| Bluetooth.BluetoothDevicesAppend | Bluetooth/bluetooth.py:108 | filtering a concatenation concatenates the filtered parts, so the kept devices stay in input order with their repeats |
| Bluetooth.BluetoothDevicesSingle | Bluetooth/bluetooth.py:108 | one device is kept iff its phy name is "bluetooth" |
| Bluetooth.BtType | Bluetooth/bluetooth.py:112-133 | "Classic" iff the type code is 0; "BLE" iff the code is 1, or it is not 0 and some service starts with "0000"; otherwise "Unknown" |
| Bluetooth.VendorPrefix | Bluetooth/bluetooth.py:135 | the vendor prefix is the first eight characters of the MAC, or all of a shorter one, and empty without a MAC |
| Bluetooth.EnrichDevices | Bluetooth/bluetooth.py:110-135 | every device in the list is updated in place with its services text, type and vendor prefix |
| Bluetooth.ServicesCounted | Bluetooth/bluetooth.py:127-165 | written and read back, the services text of a device with no services, or whose joined list is an NA text, counts 0; one whose JSON was malformed ("Invalid JSON") counts 1; a list of comma-free services that is neither the word "none" nor an NA text counts its size |
| Bluetooth.NoneCountsZero | Bluetooth/bluetooth.py:163-165 | a missing or "None" services cell counts 0 |
| Bluetooth.OneService | Bluetooth/bluetooth.py:163-165 | text without a comma that is not "none" counts 1 |
| Bluetooth.ListCounted | Bluetooth/bluetooth.py:163-165 | a ", "-joined list of comma-free services counts its length |
| Bluetooth.Behavior | Bluetooth/bluetooth.py:167-171 | the later rule wins: scanner, then rich_services, then persistent, then advertiser, else unknown, each exactly when its condition holds and no later one does |
| Bluetooth.Overwrite | Bluetooth/bluetooth.py:168-171 | a `df.loc` assignment relabels exactly the rows its condition holds for and leaves the others |
| Bluetooth.AnalyzeBehavior | Bluetooth/bluetooth.py:167-171 | applying the four assignments in source order gives every row its behaviour |
| Bluetooth.AdvertiserIsWeak | Bluetooth/bluetooth.py:168-171 | an advertiser is weak (below -50), short-lived (at most 30 s) and offers no service |
| Bluetooth.WithLabelExactly | Bluetooth/bluetooth.py:175-178 | a row is in a behaviour's subset iff its behaviour is that one |
| Bluetooth.SubsetsDisjoint | Bluetooth/bluetooth.py:175-178 | no row is in two behaviour subsets |
| Bluetooth.SubsetsPartition | Bluetooth/bluetooth.py:167-178 | the four subsets and the unknown rows together account for every row once |
| Bluetooth.RotatingOf | Bluetooth/bluetooth.py:180-182 | a prefix is reported with a number iff that number is its count of distinct MACs and exceeds 1 |
| Bluetooth.UniqueMacsCount | Bluetooth/bluetooth.py:180 | `nunique` counts the distinct MACs seen with the prefix |
| Bluetooth.RotatingExactly | Bluetooth/bluetooth.py:180-183 | a prefix is in rotating_macs iff more than one distinct MAC carries it, with that number |
| Bluetooth.RepeatsOf | Bluetooth/bluetooth.py:186-188 | a MAC is reported with a count iff that is its number of occurrences and it exceeds 1 |
| Bluetooth.ShortLivedCount | Bluetooth/bluetooth.py:185-186 | a MAC's count among short-lived rows is the number of rows with that MAC and a duration of at most 60 s |
| Bluetooth.RepetitiveExactly | Bluetooth/bluetooth.py:185-189 | a MAC is a repetitive advertiser iff more than one short-lived row carries it, with that count |
| Bluetooth.StrongNoServices | Bluetooth/bluetooth.py:191-192 | exactly the rows with signal at least -40 and no service are kept |
| Bluetooth.StrongNoServicesAppend | Bluetooth/bluetooth.py:191 | masking a concatenation concatenates the masked parts, so the kept rows stay in input order with their repeats |
| Bluetooth.StrongNoServicesSingle | Bluetooth/bluetooth.py:191 | one row is kept iff its signal is at least -40 and it has no service |
| Bluetooth.StrongSilentBehavior | Bluetooth/bluetooth.py:167-192 | a strong silent device is a scanner when short-lived, else persistent beyond 300 s, else unknown |
| Bluetooth.Placemark | Bluetooth/bluetooth.py:245-260 | a placemark is fourteen lines |
| Bluetooth.LocatedRows | Bluetooth/bluetooth.py:236-238 | exactly the rows not at (0, 0) get a placemark |
| Bluetooth.LocatedRowsAppend | Bluetooth/bluetooth.py:235-238 | the located rows of a concatenation are those of its parts, in input order |
| Bluetooth.LocatedRowsSingle | Bluetooth/bluetooth.py:236-238 | one row is placed iff it is not at (0, 0) |
| Bluetooth.ExportKml | Bluetooth/bluetooth.py:226-262 | the document is the header, the placemarks of the located rows in order, then the footer |
| Bluetooth.PlacemarkBlocks | Bluetooth/bluetooth.py:235-260 | the placemark lines are fourteen per located row, block k being row k's placemark |
| Bluetooth.KmlLayout | Bluetooth/bluetooth.py:228-262 | the document has 14n+6 lines; block k starts at line 4+14k and carries row k's coordinates, longitude first |

## Left out

- Running `tshark`, `scapy.rdpcap`, Kismet and files: their output becomes a parameter, either the text `tshark` printed or a list of packets or devices.
- The `print` messages and CSV writes: the model returns the rows a script prints or writes. Whether a CSV is written is returned as a flag.
- DBSCAN and the other machine-learning steps, the plots and the `visualize_*` helpers: only the matrices handed to DBSCAN are modelled.
- `std_gap` in the temporal profiles: it needs a square root over reals.
- `infer_device_gps`, `export_kismet_to_json`/`clean_row` and the `pyvip_behavior` wrappers of bluetooth.py are not part of this model.
- `De-AuthAttackDetection.py`, `Temporal_Clustering.py` and the `frame.time_epoch` scripts are not part of this model.
- JSON parsing: a device blob is given already parsed. Every way `json.loads` or the later lookups can raise is one `Malformed` case. The type code is an integer or absent. Python compares `true` and `1.0` equal to 1, and `false` and `0.0` equal to 0, so such a blob belongs as `Some(1)` or `Some(0)`; any other non-integer code belongs as `None`.
- Timestamps: `first_seen`/`last_seen` arrive as a duration in whole seconds, so `datetime` parsing is not modelled.
- Floating-point text: the KML coordinates are rendered by a `show` parameter standing for Python's float formatting. Real arithmetic is exact, not IEEE.
- md5 is a parameter (`Digest`): the model proves what is grouped by equal hashes, not the hash function.
- `Bluetooth.RepeatsOf`: rows come out in first-seen order, while `value_counts` orders by count; the set of rows and each count are the same.
- `Text.Lower`: models ASCII case mapping only. MAC addresses and "bluetooth"/"none" are ASCII, and Python's full Unicode lowering is not modelled.
- `PyvipFrame.FieldRows`: tshark's `header=y` line becomes an ordinary data row and `quote=d` quotes stay in the fields, as in the code. CSV quoting is not parsed.
- `pd.read_csv` type inference: the values of a text column read back from CSV are modelled as the strings written. `Bluetooth.ReadBack` turns the empty text and the other default NA texts into NaN, and `Bluetooth.ServicesCounted` is stated through it.
- `Bluetooth.Placemark`: the signal is shown as the text of its cell, or `0` when missing. `read_csv` reads `strongest_signal` as a number, so a column with a missing cell becomes float and prints `-50.0` and `0.0`. The model does not capture that rendering.
- `Bluetooth.VendorPrefix`: a `devmac` is a text or absent. A JSON `null` `devmac` makes `[:8]` raise `TypeError` outside any `try` (bluetooth.py:135), which ends the script; the model treats it as an absent key and gives "".
- `Bluetooth.BluetoothDevices`: a `phyname` is a text or absent. A JSON `null` or a non-text `phyname` makes `.lower()` raise outside any `try` (bluetooth.py:108), which ends the script; the model does not capture that crash.
- `result.returncode` in tshark_Fingerprint_Clustering.py: a failed `tshark` run exits; the model starts from the output of a successful run.
- `TemporalProfiles.BuildTemporalProfiles`: times are given as reals and a non-numeric time is not modelled (`astype(float)` would raise).
- Scapy layers other than `Dot11Elt` and the probe-request test are a packet flag and a list of elements.

Where the description of the repository and the code differ, the model follows the code:

- An element whose hex SSID is not ASCII makes `unhexlify` raise `ValueError`. The scripts do not catch that, so the script crashes (`TsharkOutput.DecodeSsid`).
- In the pyvip evil-twin summary, `bssid_count` counts non-null BSSIDs, so an SSID seen only on one-field lines is counted 0.
- The pyvip deauth summary groups only complete three-field lines, because `groupby` drops null keys; its `count()` columns count those lines.
- A device whose JSON was malformed has services "Invalid JSON", which counts as one service.
- The KML export writes a missing text cell as `0`, because of `fillna(0)`. A missing numeric cell prints as `0.0`, as noted above.
- `rotating_macs` ignores rows without a vendor prefix, because `groupby` drops null keys.
- In the tshark SSID clustering, the `else 0` branch of `jaccard_index` cannot be reached: two empty sets already returned 1.0.
