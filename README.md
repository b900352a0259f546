# populaging in Dafny

populaging turns Canadian census counts into maps of ageing populations. This project models its
data pipeline and the map rules it relies on:

- **Census normalisers.** `process.py` writes the 2016-only file. `process_3.py` writes the two-year
  predictive file. Both coerce count cells to numbers, treat a zero total as missing, and compute
  `100 * count / total`. They then drop rows whose coordinates are not numbers or are 0.
  `process_3.py` also keeps only the first row of each geographic name.
- **Healthcare cleaner** (`process_2.py`). It re-capitalises facility names word by word and applies
  the same coordinate filters.
- **Trend extrapolator** (`predict_aging_populations.py`). It drops rows missing a percentage. Per
  threshold it fits a least-squares line through the 2011 and 2016 values, evaluates it at a target
  year (2017 by default) and clips the result to [0, 100].
- **Map generators** (`data_visualization/map_gen.py`, `frontend/map_gen.py`). They drop rows
  missing a plotted column and clamp heat weights and marker colours to [0, 40]. They build
  GeoJSON Point features and classify facility types into colours. Their page scripts show or
  hide markers by two thresholds and an increase/decrease filter, and a year slider puts exactly
  one group of markers on the map.

Modules:

| module | file | role |
|---|---|---|
| `Frames` | `frames.dfy` | Boolean-mask filters, keep-first de-duplication as a function, and the loop that performs it. |
| `Cells` | `cells.dfy` | Cell values: missing-or-number, the numeric coercion of cell text, and clamping. |
| `Census` | `census.dfy` | What both normalisers share. |
| `SingleYear` | `single_year.dfy` | `process.py`. |
| `TwoYear` | `two_year.dfy` | `process_3.py`. |
| `Trend` | `trend.dfy` | The extrapolator. An ordinary-least-squares reference is the partner of its closed form. |
| `Facilities` | `facilities.dfy` | `process_2.py`. |
| `MapLayers` | `map_layers.dfy` | The static layers both map generators build. |
| `TimeSlider` | `time_slider.dfy` | The predicted layers, the visibility rule and the year slider of `data_visualization/map_gen.py`. |
| `MarkerFilter` | `marker_filter.dfy` | The add/remove threshold filter of `frontend/map_gen.py`. |

Tables are sequences of row records, and CSV cells are strings until they are coerced. A missing
value (NaN or `pd.NA`) is `None`, and a missing name is the empty string. Arithmetic is exact
(`real`).

Two behaviours of the code are worth stating outright:

- **Dropped coordinates.** A row is dropped when either coordinate is 0, not only at (0, 0)
  (`Census.LocatedMeans`).
- **Percentage range.** The normalisers do not clip percentages; only the extrapolator's output
  is bounded to [0, 100] (`Trend.Extrapolate`).

## Model

| member | source | states |
|---|---|---|
| Frames.Filter | process_data/process_3.py:52-56 | A boolean mask keeps exactly the rows satisfying the predicate, each as many times as it occurs (repeated rows included), and never lengthens the table. |
| Frames.FilterIsSubseq | process_data/process.py:19 | A masked table is an order-preserving subsequence of the original. |
| Frames.FilterTwice | process_data/process_3.py:52-56 | Applying two masks one after the other equals applying their conjunction once. |
| Frames.KeepFirstUnique | process_data/process_3.py:59 | Specifies `Frames.KeepFirst`: After `drop_duplicates(keep='first')` no two rows share a key. |
| Frames.KeepFirstKeys | process_data/process_3.py:59 | Specifies `Frames.KeepFirst`: De-duplication loses no key: the kept keys are exactly the input's keys. |
| Frames.KeepFirstAreFirst | process_data/process_3.py:59 | Specifies `Frames.KeepFirst`: Each kept row is the first row of the input with its key. |
| Frames.KeepFirstIsSubseq | process_data/process_3.py:59 | Specifies `Frames.KeepFirst`: De-duplication keeps input order. |
| Frames.FilterKeepFirstIff | process_data/process_3.py:52-59 | After a mask, a row is kept iff it passes the mask and no earlier passing row has its key. |
| Frames.DropDuplicates | process_data/process_3.py:59 | The seen-set loop computes exactly the keep-first table. |
| Cells.ToNumeric | process_data/process_3.py:23 | A number only for non-empty text made of digits, points and signs; the exact texts are `Cells.ToNumericDefined`. |
| Cells.ToNumericDefined | process_data/process_3.py:23 | Specifies `Cells.ToNumeric`: coercion gives a number iff the text is `NumericText`, an independent grammar: an optional sign, then digits with at most one point and at least one digit. Anything else is missing. |
| Cells.NoDigitIsMissing | process_data/process_3.py:23 | Text without a digit is missing. This covers the empty cell, a lone sign and the "not available" markers "..", "...". |
| Cells.TwoPointsIsMissing | process_data/process_3.py:23 | Text with two points is missing. |
| Cells.InnerSignIsMissing | process_data/process_3.py:23 | A sign after the first position makes the text missing. |
| Cells.NotAvailableIsMissing | process_data/process_3.py:23 | "..", "..." and "-" coerce to missing. |
| Cells.MisplacedIsMissing | process_data/process_3.py:23 | "1.2.3" and "1-2" coerce to missing. |
| Cells.WholeValue | process_data/process_3.py:23 | Any non-empty digit string, leading zeros included, coerces to its decimal value. |
| Cells.PlusIgnored | process_data/process_3.py:23 | A leading `+` before unsigned text gives the same result as the text alone. |
| Cells.DecimalValue | process_data/process_3.py:23 | For all digit strings w and f with a digit between them, `w.f` coerces to w + f / 10^|f|. |
| Cells.NegativeDecimalValue | process_data/process_3.py:23 | `-w.f` coerces to −(w + f / 10^|f|). |
| Cells.ExampleCoordinates | process_data/process_3.py:52-53 | The coordinate cells "49.28" and "-123.12" coerce to 49.28 and −123.12. |
| Cells.NumeralRoundTrip | process_data/process_3.py:23 | Coercing the decimal text of a count gives that count back. |
| Cells.NegativeNumeralRoundTrip | process_data/process_3.py:23 | A leading minus sign gives the negated count. |
| Cells.Clip | predictive_modeling/predict_aging_populations.py:35 | The result lies in [lower, upper]. It equals x inside the range and the nearer bound outside it. |
| Census.MissingIfZero | process_data/process_3.py:26-27 | A total is present after the replace iff it was a number other than 0, and is then unchanged. |
| Census.Percent | process_data/process_3.py:30-49 | The percentage is present iff count and total are present and the total is non-zero; then percentage × total = 100 × count. |
| Census.LocatedMeans | process_data/process_3.py:52-56 | A row passes both coordinate masks iff both coordinates coerce to numbers and neither is 0. |
| SingleYear.Normalize | process_data/process.py:10-17 | An output row keeps the name and coordinates of its input and carries the 2016 65+ and 85+ percentages of its cells. |
| SingleYear.FilteredCensusRows | process_data/process.py:19-23 | Specifies `SingleYear.FilteredCensus`: The output is the normalised located rows, one per located input row, in input order. |
| SingleYear.LocatedRowIsWritten | process_data/process.py:19-23 | Specifies `SingleYear.FilteredCensus`: Every located row is written, even one whose percentages are missing. |
| SingleYear.WrittenRowIsLocated | process_data/process.py:19-23 | Specifies `SingleYear.FilteredCensus`: Every written row comes from a located input row. |
| SingleYear.ZeroTotalGivesMissing | process_data/process.py:14-17 | A 2016 total of 0 makes both percentages missing. |
| SingleYear.RepeatedNamesSurvive | process_data/process.py:19-26 | Two located rows with the same name are both written: this script does not de-duplicate. |
| TwoYear.Normalize | process_data/process_3.py:23-49 | Each of the four percentages is built from its own (threshold, year) cells; the coordinates are the coerced, non-zero values. |
| TwoYear.Selected | process_data/process_3.py:52-59 | Every selected raw row is from the input and has usable coordinates. |
| TwoYear.BuildPredictiveData | process_data/process_3.py:52-64 | The script computes the predictive table, whose names are unique. |
| TwoYear.SelectedIsSubsequence | process_data/process_3.py:52-59 | The two masks act as one located-mask, and the selected rows keep input order. |
| TwoYear.UniqueNames | process_data/process_3.py:59 | Specifies `TwoYear.PredictiveData`: No two written rows share a geographic name. |
| TwoYear.SelectedIffFirstOfItsName | process_data/process_3.py:52-59 | A raw row is selected iff it is located and no earlier located row has its name. |
| TwoYear.WrittenRowIsFirstOfItsName | process_data/process_3.py:52-64 | Specifies `TwoYear.PredictiveData`: Each written row is the normalised first located row of its name. |
| TwoYear.FirstOfItsNameIsWritten | process_data/process_3.py:52-64 | Specifies `TwoYear.PredictiveData`: The first located row of every name is written, whatever its counts. |
| TwoYear.ZeroTotalGivesMissing | process_data/process_3.py:26-49 | A zero total in one year makes that year's two percentages missing. The other year's percentages are the same as with any other text in that total's place. |
| TwoYear.YearsAreIndependent | process_data/process_3.py:30-49 | The 2011 percentages depend only on 2011 cells and the 2016 percentages only on 2016 cells. |
| Trend.TwoPointLine | predictive_modeling/predict_aging_populations.py:18-23 | The closed-form line equals the least-squares fit through (2011, p2011) and (2016, p2016) at the target year. |
| Trend.LeastSquaresTwoPoints | predictive_modeling/predict_aging_populations.py:18-23 | Least squares over the two census years is the line through both points. |
| Trend.PredictFuture | predictive_modeling/predict_aging_populations.py:17-30 | Each threshold's prediction is the least-squares fit of its own two percentages at the target year. |
| Trend.Extrapolate | predictive_modeling/predict_aging_populations.py:14-38 | No file iff no row is complete (the two-column assignment fails on the empty frame). Otherwise one prediction per complete row, in order, each the clipped fit at `futureYear`, every prediction in [0, 100]. The script's run is `Extrapolate(table, DefaultFutureYear)`, the default year 2017. |
| Trend.CompleteRowsKept | predictive_modeling/predict_aging_populations.py:7-14 | A row is kept iff all four percentages are present, in input order. |
| Trend.ClosedForm | predictive_modeling/predict_aging_populations.py:17-30 | The prediction is p2011 + (p2016 − p2011)(year − 2011)/5 per threshold. |
| Trend.LineHitsAnchors | predictive_modeling/predict_aging_populations.py:17-30 | Predicting for 2011 or 2016 returns that year's percentages. |
| Trend.FlatWhenUnchanged | predictive_modeling/predict_aging_populations.py:17-30 | Unchanged percentages give the same prediction for every year. |
| Trend.ThresholdsAreIndependent | predictive_modeling/predict_aging_populations.py:20-28 | The 65+ prediction reads only 65+ columns and the 85+ prediction only 85+ columns. |
| Trend.ExampleTown | predictive_modeling/predict_aging_populations.py:17-35 | Percentages 10 and 14 reach 18 by 2021, which clipping leaves alone. |
| Trend.ExampleClippedAbove | predictive_modeling/predict_aging_populations.py:17-35 | Percentages 90 and 99 reach 108 by 2021, which is clipped to 100. |
| Trend.DefaultYear | predictive_modeling/predict_aging_populations.py:17 | Without a target year the prediction is for 2017: the 2016 value plus a fifth of the five-year change. |
| Trend.ExampleCells | process_data/process_3.py:23 | The cells "10", "14" and "100" coerce to those numbers. |
| Trend.RawCellsToForecast | process_data/process_3.py:23-49 | Raw counts 10/100 (2011) and 14/100 (2016) give percentages 10 and 14 and a 2021 forecast of 18. |
| Facilities.Capitalize | process_data/process_2.py:8 | `str.capitalize`: same length, first character upper case, the rest lower case. |
| Facilities.SplitFrom | process_data/process_2.py:8 | `str.split()` yields only non-empty words without whitespace. |
| Facilities.JoinSplitFrom | process_data/process_2.py:8 | Splitting after a begun word and re-joining with single spaces gives the begun word plus the rest, whitespace runs collapsed and ends trimmed. |
| Facilities.JoinWords | process_data/process_2.py:8 | Specifies `Facilities.Words`: The words of any text, joined by single spaces, are that text with each whitespace run collapsed to one space and the ends trimmed. |
| Facilities.WordsDetermined | process_data/process_2.py:8 | Specifies `Facilities.Words`: The words of a text are the only list of words whose single-spaced join is the collapsed text. |
| Facilities.ExampleSplit | process_data/process_2.py:8 | Leading, trailing and repeated whitespace give no empty words: " ab\t\tc " splits into "ab" and "c". |
| Facilities.CapitalizeKeepsWord | process_data/process_2.py:8 | Capitalising a word leaves it a word. |
| Facilities.CapitalizeIdempotent | process_data/process_2.py:8 | Capitalising twice is capitalising once. |
| Facilities.WordsOfJoin | process_data/process_2.py:8 | Splitting a space-joined list of words gives the words back. |
| Facilities.JoinSingleSpaced | process_data/process_2.py:8 | Joining words gives text with no leading, trailing or doubled space. |
| Facilities.CapitalizeNameWords | process_data/process_2.py:8 | Specifies `Facilities.CapitalizeName`: The new name has the old name's words, each capitalised, in order. |
| Facilities.CapitalizeNameSingleSpaced | process_data/process_2.py:8 | Specifies `Facilities.CapitalizeName`: The new name is single-spaced. |
| Facilities.CapitalizeNameIdempotent | process_data/process_2.py:8 | Specifies `Facilities.CapitalizeName`: Re-capitalising a cleaned name changes nothing. |
| Facilities.WithCapitalizedName | process_data/process_2.py:8 | Only the name column changes, to its capitalised form. |
| Facilities.FilteredHealthcareRows | process_data/process_2.py:8-12 | Specifies `Facilities.FilteredHealthcare`: A facility is written iff its coordinates are non-zero numbers. Order, type and coordinates are kept; the name is capitalised. |
| Facilities.CapitalizeCommutesWithFilter | process_data/process_2.py:8-10 | Capitalising before the coordinate masks equals capitalising after them. |
| MapLayers.PlotTableRows | data_visualization/map_gen.py:19 | A row reaches the layers iff none of the five plotted columns is missing, in file order. |
| MapLayers.LocatedRowIsPlotted | frontend/map_gen.py:19 | A located census row is plotted iff it has a name, both 2016 counts are numbers and its total is a non-zero number. |
| MapLayers.HeatData | data_visualization/map_gen.py:28-31 | One heat point per row at its coordinates. The weight lies in [0, 40]: the 65+ percentage inside that range, 0 below it and 40 above it. |
| MapLayers.BuildActualMarkers | data_visualization/map_gen.py:39-58 | One actual marker per row, in order. Its colour value is the row's heat weight and its options carry both percentages. |
| MapLayers.BuildFacilityMarkers | data_visualization/map_gen.py:134-143 | One facility marker per row, in order, coloured by its type and carrying its name and type. |
| MapLayers.PointFeature | frontend/map_gen.py:65-76 | Read as RFC 7946 section 3.1.1 orders a position, the feature's geometry gives the row's latitude and longitude. Its properties give the same. |
| MapLayers.BuildFeatures | data_visualization/map_gen.py:63-81 | One Point feature per row, in order. Geometry and properties agree on the row's name and coordinates. |
| MapLayers.FacilityColor | data_visualization/map_gen.py:125-132 | lightred iff the type mentions a hospital; else lightblue iff it mentions nursing or residential care; else beige. A non-string type counts as "". |
| MapLayers.MissingCharacter | frontend/map_gen.py:126-129 | Text lacking one of a pattern's characters does not contain the pattern. |
| MapLayers.HospitalBeforeNursing | data_visualization/map_gen.py:127-130 | Every type that passes both the hospital test and the nursing test is lightred, not lightblue: the hospital test comes first. |
| MapLayers.NursingHospitalsIsLightRed | data_visualization/map_gen.py:127-130 | "Nursing Hospitals" passes both tests and is lightred. |
| MapLayers.NoMarkerLettersIsBeige | frontend/map_gen.py:124-131 | A type without the letters H, p, N, R is beige. |
| MapLayers.MissingTypeIsBeige | data_visualization/map_gen.py:126 | A missing type, like an empty one, is beige. |
| MapLayers.HospitalsAreLightRed | data_visualization/map_gen.py:127-128 | The "Hospitals" type is lightred. |
| MapLayers.NursingIsLightBlue | data_visualization/map_gen.py:129-130 | The "Nursing and residential care facilities" type is lightblue. |
| MapLayers.AmbulatoryIsBeige | data_visualization/map_gen.py:131-132 | The "Ambulatory health care services" type is beige. |
| TimeSlider.MatchesOf | data_visualization/map_gen.py:152 | The actual rows a name matches are exactly those with that name. |
| TimeSlider.MergeOneRows | data_visualization/map_gen.py:152 | Specifies `TimeSlider.MergeOne`: A predictions row yields `RowsFor` merged rows: one per actual row of its name, in the actual table's order, the i-th carrying the i-th such row's 65+ value; when no actual row has its name, exactly one row with a missing value. Every one carries that prediction and is `Joined`. |
| TimeSlider.LeftMerge | data_visualization/map_gen.py:152 | The merge has at least as many rows as the predictions table. |
| TimeSlider.LeftMergeCount | data_visualization/map_gen.py:152 | The merge has `MergedCount` rows: the sum over the predictions rows of the number of actual rows with its name, or 1 when there is none. |
| TimeSlider.LeftMergeAt | data_visualization/map_gen.py:152 | Layout of the merge: the k-th merged row of predictions row i sits at position `MergedCount(preds[..i]) + k`, after the rows of all earlier predictions, in predictions order. |
| TimeSlider.LeftMergeAppend | data_visualization/map_gen.py:152 | Merging two predictions tables one after the other gives the two merges one after the other. |
| TimeSlider.LeftMergeSplit | data_visualization/map_gen.py:152 | The merge is the rows of the predictions before row i, then row i's merged rows, then the rest. |
| TimeSlider.LeftMergeKeepsRows | data_visualization/map_gen.py:152 | A left merge never loses a predictions row: each appears in some merged row, and every merged row carries a predictions row joined to an actual row of its name, or to a missing value iff there is none. |
| TimeSlider.UniqueMatch | data_visualization/map_gen.py:152 | With unique actual names, a name matches at most one row. |
| TimeSlider.LeftMergeUnique | data_visualization/map_gen.py:152 | With unique actual names the merge is row for row. Each row carries the actual 65+ value of its name, or a missing value iff no actual row has that name. |
| TimeSlider.RepeatedNameDuplicates | data_visualization/map_gen.py:152 | Two actual rows with the prediction's name give two merged rows. |
| TimeSlider.BuildPredictedMarkers | data_visualization/map_gen.py:154-178 | One predicted marker per merged row, at its coordinates, coloured by the clamped predicted 65+ value, carrying predicted and actual values. |
| TimeSlider.ActualVisibleIff | data_visualization/map_gen.py:243-246 | Specifies `TimeSlider.Visible`: An actual marker is visible iff percent65 ≥ t65 and percent85 ≥ t85, in every mode. |
| TimeSlider.PredictedVisibleIff | data_visualization/map_gen.py:247-261 | Specifies `TimeSlider.Visible`: A predicted marker needs both thresholds. "increase" also needs predicted65 > actual65, "decrease" predicted65 < actual65, and "all" nothing more. |
| TimeSlider.ModesNarrowAll | data_visualization/map_gen.py:251-261 | Specifies `TimeSlider.Visible`: A marker visible under "increase" or "decrease" is visible under "all"; no predicted marker is visible under both. |
| TimeSlider.VisibleMonotone | data_visualization/map_gen.py:246-250 | Specifies `TimeSlider.Visible`: Raising a threshold never makes a marker visible. |
| TimeSlider.UnmatchedOnlyUnderAll | data_visualization/map_gen.py:251-261 | A predicted marker with no actual value is hidden under "increase" and "decrease". |
| TimeSlider.GroupFor | data_visualization/map_gen.py:283-290 | Year 0 selects the actual group and year k in 1..10 predicted group k − 1. |
| TimeSlider.GroupLayersAreGroups | data_visualization/map_gen.py:275-282 | The layers the slider removes are exactly the eleven marker groups. |
| TimeSlider.SliderMap.constructor | data_visualization/map_gen.py:148-180 | The saved page has every group on the map, every marker visible and the actual group current. |
| TimeSlider.SliderMap.UpdateMarkers | data_visualization/map_gen.py:234-269 | Only the current group's styles change: each marker is visible iff the rule holds. The layers on the map are unchanged. |
| TimeSlider.SliderMap.UpdateActiveGroup | data_visualization/map_gen.py:271-292 | Afterwards exactly one marker group is on the map, the one the year selects, and it is current. Other layers are untouched and the group is restyled. |
| TimeSlider.Load | data_visualization/map_gen.py:196-303 | After start-up only the actual group is on the map, beside the other layers, and it is current. Its markers are styled by the rule at thresholds 0 and mode "all"; the predicted groups stay fully visible. |
| MarkerFilter.PassingFailingPartition | frontend/map_gen.py:187-194 | Every marker index either passes or fails the thresholds, and none does both. |
| MarkerFilter.AfterFilter | frontend/map_gen.py:182-196 | Specifies `MarkerFilter.Shows`: After an update a marker is on the map iff p65 ≥ t65 and p85 ≥ t85. |
| MarkerFilter.SameRuleAsSliderMap | frontend/map_gen.py:187 | Specifies `MarkerFilter.Shows`: The rule agrees with the slider map's on actual markers in every mode. |
| MarkerFilter.UpdateIdempotent | frontend/map_gen.py:188-194 | A second update with the same thresholds changes nothing and adds or removes no marker. |
| MarkerFilter.UpdateKeepsOthers | frontend/map_gen.py:182 | An update touches only marker indices. |
| MarkerFilter.LowerThresholdsKeep | frontend/map_gen.py:187-195 | Specifies `MarkerFilter.Shows`: Lowering both thresholds removes no marker. |
| MarkerFilter.FilterMap.constructor | frontend/map_gen.py:38-58 | The saved page has every marker on the map. |
| MarkerFilter.FilterMap.UpdateMarkers | frontend/map_gen.py:176-197 | The new map is the filtered one. It adds only passing markers that were absent and removes only failing markers that were present. |

## Left out

- CSV reading and writing, the file paths, and the column selection by header are not modelled. Tables are sequences of records holding the selected columns.
- Cells.ToNumeric: accepts only an optional sign, digits and at most one decimal point. Exponents, surrounding whitespace, thousands separators, `inf` and `nan` texts are read as missing, although pandas accepts some of them.
- Census.NonZeroCoordinates: tests the coerced coordinate (`Cells.NonZeroPair`). pandas compares the column as read; a column that `read_csv` left as text compares unequal to 0.0 for every row.
- Missing values: NaN and `pd.NA` are both `None`, and their different propagation rules are not distinguished.
- SingleYear.ZeroTotalGivesMissing: models the intended zero-to-missing rule of `process_data/process.py:14`. That line is a chained `replace(..., inplace=True)` on a column selection, and under pandas copy-on-write it may not write back to the frame.
- Order of steps: `process.py` and `process_3.py` compute percentages before the coordinate filters. The model filters first and then computes per row, which gives the same rows because each percentage depends only on its own row.
- Floating point is not modelled: arithmetic is exact, and `round(x, 2)` on marker values (`data_visualization/map_gen.py:42`, `:156-158`) is left out.
- MapLayers.BuildActualMarkers: the colour value is the clamped unrounded percentage, and the options carry unrounded percentages.
- Trend.Extrapolate: when no row is complete the script raises at `predictive_modeling/predict_aging_populations.py:32` and writes nothing; the model returns no table and does not model the exception itself.
- Predictor fit: scikit-learn's `LinearRegression` is represented by the ordinary-least-squares formula `Trend.LeastSquaresAt`.
- Facilities.Capitalize: ASCII only. Python's Unicode case mapping and Unicode whitespace in `str.split()` are left out, and names are assumed to be strings (a non-string name makes `process_2.py:8` raise).
- Rendering is left out: folium/branca maps, the heat-map drawing, the colormap interpolation from value to colour, tooltips, popups, the search control and the slider HTML/CSS. A marker keeps the value its colour is computed from, not the colour.
- Page events are left out: DOM event wiring, `console.log` and reading slider values with `parseFloat`/`parseInt`. The thresholds, mode and year are parameters, with the year in the slider's range 0..10.
- TimeSlider.Visible: a missing actual value is treated as comparing false, as JavaScript does with NaN. How folium serialises NaN into the page is not modelled.
- Predicted files: `data_visualization/map_gen.py:149-151` reads `predicted_census_data_1.csv` through `_10.csv`, but the extrapolator writes only `_1`. The model takes the ten predicted groups as inputs.
- TimeSlider.LeftMerge: models only names as strings. pandas also matches NaN keys to each other, which cannot occur here because the actual rows have non-missing names.
